# Bitonic merge network with a serial and a Cilk-parallel driver

`bitonic_sort.cpp` reorders a random-access range in place with the bitonic
network. Each level runs one half-cleaner pass: element `i` of the first half
is compare-exchanged with element `i` of the second half. It then recurses on
the two halves. The parallel driver does the same, but above 4194304 elements
it spawns the first half as a Cilk task. The file also has `sorted`, an
adjacent-pair scan, and `make_bitonic_sequence(n)`, which produces an
ascending run of even numbers followed by a descending run of odd numbers.
`main` generates such a sequence and asserts that its length is a power of
two. It then sorts the sequence and reports "Sorted!" or "Not Sorted!".

The model is in Dafny, one module per concern:

- `orders.dfy` (`Orders`): ascending order, the adjacent-pair condition, and
  the ascending-then-descending ("bitonic") shape.
- `powers_of_two.dfy` (`PowersOfTwo`): the `size & (size - 1)` test of `main`.
- `merge_spec.dfy` (`BitonicMergeSpec`): the network as functions on
  sequences.
  - `CompareExchange` is one compare-exchange.
  - `PartialClean` is the first k iterations of the pass loop.
  - `HalfClean` is the whole pass, in closed form.
  - `BitonicMerge` is the recursion.
- `zero_one.dfy` (`ZeroOne`): why the network sorts a bitonic input whose
  length is a power of two. The argument is the 0-1 principle, carried as an
  invariant.
  - Cutting a sequence at a threshold u gives the boolean sequence
    `s[i] >= u`.
  - The pass commutes with every cut.
  - On a bitonic 0-1 sequence, the pass leaves two bitonic halves, and one of
    them is all 0 or all 1.
- `generator.dfy` (`Generator`): `make_bitonic_sequence`.
  - Its `size_t` arithmetic is modulo 2^64.
  - Storing into `int` is modulo 2^32.
  - The model shows that the wrap-around cancels for every `int`-sized n.
- `bitonic_sort.dfy` (`BitonicSort`): the imperative code.
  - The pass loop, the two recursive drivers on an `array<int>` range
    `[lo, hi)`, `sorted`, and the generator's two fill loops.
  - The flow of `main`.
  - Each method is proved against the functions above.

The comparator is `std::less<int>`, the only one the program instantiates, so
`comp(x, y)` is `x < y` throughout.

Three facts about the code shape the model:

- Despite its name, the routine is a bitonic merge, not a general sort.
  `NotASortForArbitraryInput` shows that `[x, y, x, y]` with `x < y` comes
  back unchanged and unsorted. Sortedness is proved only for
  ascending-then-descending inputs whose length is a power of two, which is
  what `make_bitonic_sequence` produces and what the assertion on line 121
  demands of the length.
- `make_bitonic_sequence(8)` is `[0, 2, 4, 6, 5, 3, 1, -1]`: its even run
  rises from 0 and its odd run counts down from 5 to -1.
- `sorted` needs a non-empty range, because it starts at `first + 1`.

## Model

| member | source | states |
|---|---|---|
| `BitonicSort.SerialBitonicSort` | bitonic_sort.cpp:20-41 | the range becomes `BitonicMerge` of its old contents, which is the identity at length ≤ 1; it is a permutation of the old contents, and nothing outside `[lo, hi)` changes |
| `BitonicSort.ParallelBitonicSort` | bitonic_sort.cpp:43-66 | the same result as the serial driver at every length, both at or below the 4194304 cutoff (where it calls the serial driver) and above it (pass, then the two halves) |
| `BitonicSort.ParallelMatchesSerial` | bitonic_sort.cpp:46-47 | given two arrays with equal contents, the parallel driver and the serial driver leave them equal |
| `BitonicSort.HalfCleanerPass` | bitonic_sort.cpp:26-37 | the compare-exchange loop leaves `HalfClean` of the old range and leaves the outside untouched |
| `BitonicSort.PassStep` | bitonic_sort.cpp:31-37 | one iteration (swap when `a[mid+i] < a[first+i]`) extends the first i steps of the pass to i + 1 and touches nothing outside the range |
| `BitonicSort.ComposeHalves` | bitonic_sort.cpp:39-40 | pass, then first half, then second half gives `BitonicMerge` of the range, and the outside stays as before |
| `BitonicSort.IsSorted` | bitonic_sort.cpp:73-81 | on a non-empty range, true iff no adjacent pair has `a[k+1] < a[k]`, and iff the range is ascending |
| `BitonicSort.MakeBitonicSequence` | bitonic_sort.cpp:88-102 | the two fill loops, computed in `size_t` and stored as `int`, return `GeneratedSequence(n)`; for n ≤ INT_MAX that is the intended `BitonicSequence(n)` |
| `BitonicSort.SortGenerated` | bitonic_sort.cpp:112-130 | for `0 ≤ n ≤ INT_MAX`: the assertion fails iff n is not a power of two; otherwise `sorted` reports true |
| `BitonicSort.SortsGeneratedEight` | bitonic_sort.cpp:114-122 | the run at n = 8 sorts `[0, 2, 4, 6, 5, 3, 1, -1]` into `[-1, 0, 1, 2, 3, 4, 5, 6]` |
| `PowersOfTwo.PowerOfTwoCheckCorrect` | bitonic_sort.cpp:121 | `size > 0 && (size & (size - 1)) == 0` holds iff size is a power of two |
| `PowersOfTwo.PowerOfTwoHalves` | bitonic_sort.cpp:26-40 | a power of two above 1 splits into two halves that are powers of two, so every recursive call again gets a power of two |
| `PowersOfTwo.PowerOfTwoCheck` | bitonic_sort.cpp:121 | the assertion's condition on the vector's size, with `&` as a recursive bitwise AND on naturals; its meaning is stated by `PowerOfTwoCheckCorrect` |
| `BitonicMergeSpec.CompareExchange` | bitonic_sort.cpp:34-36 | one compare-exchange of positions i < j: keeps the length; its effect at every position is stated by `CompareExchangeAt` |
| `BitonicMergeSpec.PartialClean` | bitonic_sort.cpp:31-37 | the first k iterations of the pass loop: keeps the length; stated position by position by `PartialCleanAt` |
| `BitonicMergeSpec.HalfClean` | bitonic_sort.cpp:26-37 | the whole pass in closed form: keeps the length; its pairs are stated by `HalfCleanPairs` |
| `BitonicMergeSpec.BitonicMerge` | bitonic_sort.cpp:20-41 | the recursion, splitting at `len / 2` as the drivers do: keeps the length; permutation and sortedness are stated by `BitonicMergePermutes` and `BitonicMergeSortsBitonic` |
| `Generator.GeneratedEntry` | bitonic_sort.cpp:94-98 | entry i of the vector computed in `size_t` and stored as `int`; its value is stated by `DescendingEntryExact` and `GeneratedSequenceExact` |
| `Generator.GeneratedSequence` | bitonic_sort.cpp:88-102 | the vector `make_bitonic_sequence(n)` returns, entry by entry; stated by `GeneratedSequenceExact` |
| `Orders.NoDescentIffSorted` | bitonic_sort.cpp:73-81 | having no adjacent descent is equivalent to ascending order |
| `BitonicMergeSpec.CompareExchangeAt` | bitonic_sort.cpp:34-36 | after one compare-exchange the minimum is at the left position, the maximum at the right one, and every other position is unchanged |
| `BitonicMergeSpec.PartialCleanAt` | bitonic_sort.cpp:31-37 | after k iterations the first k pairs hold (min, max) of their original values and every other position is untouched |
| `BitonicMergeSpec.PartialCleanPermutes` | bitonic_sort.cpp:31-37 | the first k iterations only reorder the range (`iter_swap` is the only write) |
| `BitonicMergeSpec.PartialCleanComplete` | bitonic_sort.cpp:31-37 | running all `len/2` iterations gives the closed-form pass `HalfClean` |
| `BitonicMergeSpec.HalfCleanPermutes` | bitonic_sort.cpp:31-37 | the pass only reorders |
| `BitonicMergeSpec.HalfCleanPairs` | bitonic_sort.cpp:26-37 | after the pass no pair `i < len/2` has `a[mid+i] < a[first+i]`; each pair keeps its own two values; on an odd length the last element stays |
| `BitonicMergeSpec.HalfCleanOrderedPairs` | bitonic_sort.cpp:31-37 | a pass over pairs that are already in order changes nothing |
| `BitonicMergeSpec.BitonicMergePermutes` | bitonic_sort.cpp:20-41 | the driver's result is a permutation of its input |
| `BitonicMergeSpec.BitonicMergeKeepsSorted` | bitonic_sort.cpp:20-41 | an ascending input comes back unchanged |
| `BitonicMergeSpec.NotASortForArbitraryInput` | bitonic_sort.cpp:20-41 | on `[x, y, x, y]` with `x < y` (for example `[0, 1, 0, 1]`) the result is the input and is not ascending: the routine is only a merge |
| `ZeroOne.AboveHalfClean` | bitonic_sort.cpp:31-37 | cutting at any threshold commutes with the pass: the cut of the result is the AND/OR pass on the cut |
| `ZeroOne.CleanBandHalves` | bitonic_sort.cpp:31-37 | on a bitonic 0-1 sequence of even length the pass leaves two bitonic halves, and the left half is all 0 or the right half is all 1 |
| `ZeroOne.HalfCleanAtThreshold` | bitonic_sort.cpp:31-40 | after the pass, both halves stay threshold-bitonic, and either the left half lies below u or the right half lies at or above u |
| `ZeroOne.BitonicMergeSortsThresholdBitonic` | bitonic_sort.cpp:20-41 | a power-of-two-length input whose every cut is bitonic comes out ascending |
| `ZeroOne.BitonicIsThresholdBitonic` | bitonic_sort.cpp:20-41 | every cut of an ascending-then-descending sequence is bitonic |
| `ZeroOne.BitonicMergeSortsBitonic` | bitonic_sort.cpp:20-41 | an ascending-then-descending input of power-of-two length comes out ascending |
| `Generator.SwitchPoint` | bitonic_sort.cpp:91 | the switch point never exceeds n/2, so its unsigned subtraction does not wrap |
| `Generator.BitonicSequenceShape` | bitonic_sort.cpp:88-102 | length n, strictly ascending evens before the switch point, strictly descending odds from it on, and so ascending-then-descending |
| `Generator.BitonicSequenceFitsInt` | bitonic_sort.cpp:93-99 | for n ≤ INT_MAX every intended entry lies in the `int` range |
| `Generator.DescendingEntryExact` | bitonic_sort.cpp:97-99 | `2 * (2 * sp - i - 1) - 1`, evaluated step by step modulo 2^64 and stored modulo 2^32, gives its mathematical value whenever that fits in `int` |
| `Generator.GeneratedSequenceExact` | bitonic_sort.cpp:93-99 | for n ≤ INT_MAX the vector as computed equals the intended sequence |
| `Generator.BitonicSequenceOfEight` | bitonic_sort.cpp:88-102 | `make_bitonic_sequence(8)` is `[0, 2, 4, 6, 5, 3, 1, -1]` |

## Left out

- Argument parsing with `atoi` (line 113) is not modelled. `SortGenerated` takes n directly.
- A negative n is not modelled. It becomes a huge `size_t`, the vector constructor on line 89 throws `std::length_error`, and the uncaught exception ends the process through `std::terminate`. So `SortGenerated` requires `0 ≤ n ≤ INT_MAX`.
- `print_seq` and all console output (lines 104-110, 116-118, 124-128) are left out. `SortGenerated` returns the verdict that would be printed. `main` returns 0 whenever it prints a verdict (line 129); a failed assertion on line 121 aborts the process instead, and `SortGenerated` reports that as `AssertionFailed`.
- The Cilk runtime and the `NPARALLEL` switch (lines 8-18, 62-65) are left out. The spawned first half and the second half touch disjoint ranges, so the parallel driver runs them one after the other. Scheduling and data races are not modelled.
- Iterator and comparator genericity (the templates on lines 20-21, 43-44 and 73-74, and the default-comparator overloads on lines 68-71 and 83-86) are left out. The model is an `array<int>` with indices and `<`, the only instantiation the program uses. Comparators that throw or are not strict weak orders are out of scope.
- A build with `NDEBUG`, where the assertion on line 121 disappears, is not modelled. `SortGenerated` treats a failed assertion as the end of the run.
- Memory exhaustion when allocating the vector is not modelled.
- ParallelMatchesSerial: does not state what the first-half task and the continuation observe while both run. It states only the joined result.
