# Applicant records: key-only ordering, two searches and a merge sort

This project models the algorithmic part of `Lab1V16.cpp`, a small C++ lab on
university applicants (`enrollee`: full name, faculty, speciality, exam score)
and proves properties of that model in Dafny:

- **`Enrollees`** (`enrollees.dfy`) holds the record and its five comparison
  operators.
  - Every operator looks at `name` only, and `std::string` order decides.
  - That order is defined here as `LexLess` and checked against a
    first-difference reference definition.
- **`Searches`** (`searches.dfy`) holds `searches<enrollee>`.
  - `linear_search` scans the whole array.
  - `binary_search` narrows a window and then widens the match it found into
    the whole run of equal names.
  - Both are specified by one function, `KeyMatches`.
  - The two widening scans are modelled twice. One version stops at the ends
    of the array and is the one the model uses. The other is as written; its
    lemmas show it reading `data[-1]` and `data[size]`.
- **`Sorts`** (`sorts.dfy`) holds the template `sorts<T>` for any element type.
  - The `operator<` of `T` is the parameter `less`.
  - `merge` fills a fresh buffer with three loops and copies it back in place.
  - `nowMerge` splits at `(start + end) / 2` and recurses; `mergeSort` calls it.
  - Each array method is proved against a function on sequences: `MergeRuns`
    for `merge` and `SortSeq` for `nowMerge`. Lemmas prove those functions are
    permutations and, when `less` is a strict weak order, ascending.
- **`EnrolleeSort`** (`enrollee_sort.dfy`) instantiates the sort with the
  applicants' `operator<`, as `main` does at `Lab1V16.cpp:266`.
  - The result is sorted by name.
  - An array already sorted by name keeps its sequence of names.
  - Two records with the same name come out swapped, so the sort is not
    stable.

Two facts about the code that a reader might not expect:

- **Ties in the merge.** The merge at `Lab1V16.cpp:190` tests strict `<`, so
  on equal names the element from the right run is written first and the sort
  is not stable (`Sorts.TieTakesRightHead`, `Sorts.TieTakesRightFirst`, `EnrolleeSort.EqualNamesSwap`).
- **Sorting twice.** Sorting twice keeps the sequence of names
  (`EnrolleeSort.SortTwiceKeepsNames`), but two different records with one
  name swap back on the second pass (`EnrolleeSort.SortTwiceSwapsBack`).

## Model

| member | source | states |
|---|---|---|
| Enrollees.Enrollee | Lab1V16.cpp:11-24 | the applicant record: name (the key), faculty, speciality and exam score |
| Enrollees.LexLess | Lab1V16.cpp:38 | `std::string`'s `<` on names: the first differing character decides, a proper prefix is smaller (proved equal to that definition by `LexLessIsFirstDifference`) |
| Enrollees.LexLessIsFirstDifference | Lab1V16.cpp:38 | the string order holds exactly when one name is a proper prefix of the other or is smaller at their first difference |
| Enrollees.LexLessAsymmetric | Lab1V16.cpp:38 | the string order never holds both ways |
| Enrollees.LexLessIrreflexive | Lab1V16.cpp:33-38 | no name is below itself |
| Enrollees.LexLessTransitive | Lab1V16.cpp:38 | the string order is transitive |
| Enrollees.LexLessConnected | Lab1V16.cpp:38 | two different names are always ordered one way or the other |
| Enrollees.Less | Lab1V16.cpp:31-39 | `<` holds exactly when the left name is lexicographically below the right one (so it is false on equal names) |
| Enrollees.Greater | Lab1V16.cpp:46-54 | `>` holds exactly when the right name is below the left one, i.e. `x > y` iff `y < x` |
| Enrollees.LessEq | Lab1V16.cpp:61-69 | `<=` holds exactly when the right name is not below the left one (true on equal names), i.e. it is `!(x > y)` |
| Enrollees.GreaterEq | Lab1V16.cpp:76-84 | `>=` holds exactly when the left name is not below the right one (true on equal names), i.e. it is `!(x < y)` |
| Enrollees.Equal | Lab1V16.cpp:86-94 | `==` holds exactly when neither record is `<` the other, i.e. the names are equal |
| Enrollees.Trichotomy | Lab1V16.cpp:31-94 | exactly one of `<`, `==`, `>` holds for any two records |
| Enrollees.KeyOnly | Lab1V16.cpp:31-94 | records with the same name compare alike under every operator, whatever their faculty, speciality and score |
| Enrollees.LessEqTransitive | Lab1V16.cpp:61-69 | `<=` is transitive |
| Enrollees.LessLessEqTransitive | Lab1V16.cpp:31-69 | `x < y <= z` implies `x < z` |
| Enrollees.LessEqLessTransitive | Lab1V16.cpp:31-69 | `x <= y < z` implies `x < z` |
| Enrollees.LessEqTotal | Lab1V16.cpp:61-69 | any two records are comparable by `<=` |
| Searches.KeyMatches | Lab1V16.cpp:104-112 | the answer both searches are specified by: the indices of records `==` to the target, in scan order (characterized by `KeyMatchesSpec`) |
| Searches.KeyMatchesSpec | Lab1V16.cpp:104-112 | the expected search answer holds exactly the indices of records with the target's name, strictly ascending |
| Searches.Run | Lab1V16.cpp:130 | the indices the forward scan pushes: exactly those in `[lo, hi)`, each once, strictly ascending |
| Searches.KeyMatchesIsRun | Lab1V16.cpp:127-131 | if the records with the target's name are exactly those in `[lo, hi)`, the answer is that contiguous run |
| Searches.LinearSearch | Lab1V16.cpp:104-112 | returns exactly the indices in `[0, size)` whose record has the target's name, strictly ascending (empty when there is none or `size = 0`); `data` is not modified |
| Searches.Midpoint | Lab1V16.cpp:118-123 | the midpoint of a non-empty window lies inside it |
| Searches.BelowUpTo | Lab1V16.cpp:123 | in a sorted array, everything up to a record below the target is below it too, so moving `left` past the midpoint skips no match |
| Searches.AboveFrom | Lab1V16.cpp:120-121 | in a sorted array, everything from a record above the target on is above it too, so moving `right` before the midpoint skips no match |
| Searches.MaximalRunIsAllMatches | Lab1V16.cpp:127-131 | in a sorted array, a maximal run of equal names around a match holds all the matches |
| Searches.Narrow | Lab1V16.cpp:116-124 | the window stays within `[0, size-1]` and shrinks every turn; on exit either its midpoint matches, or it is empty; everything left of it is `<` the target and everything right of it `>` |
| Searches.CollectRun | Lab1V16.cpp:125-131 | with both scans stopped at the array's ends, the collected indices are exactly all matches, contain the midpoint and are contiguous |
| Searches.BinarySearch | Lab1V16.cpp:114-133 | on a name-sorted array, returns exactly the indices of records with the target's name, as one contiguous ascending run, equal to the linear search's answer; empty when the loop exits with `left > right` |
| Searches.BackwardScanAsWritten | Lab1V16.cpp:128 | the unguarded backward scan stops at or before where it starts |
| Searches.ForwardScanAsWritten | Lab1V16.cpp:130 | the unguarded forward scan stops at or after where it starts |
| Searches.BackwardScanReadsBeforeStart | Lab1V16.cpp:128 | when the run of matches reaches index 0, the scan as written reads `data[-1]` |
| Searches.ForwardScanReadsPastEnd | Lab1V16.cpp:130 | when the run of matches reaches the last index, the scan as written reads `data[size]` |
| Searches.OneRecordReadsBeforeStart | Lab1V16.cpp:114-128 | a one-record array searched for its own record matches at index 0 at once, and then the scan as written reads `data[-1]` |
| Searches.TwoRecordsReadPastEnd | Lab1V16.cpp:114-130 | two records with names `x < y` searched for `y`: the loop probes index 0 (below `y`) and then matches at index 1, the scan of line 128 stops at index 0 inside the array, and the scan of line 130, going on from there, reads and pushes index 1 and then reads `data[2]`, one past the end |
| Searches.LastOfTwoMatches | Lab1V16.cpp:127-130 | in two records of which only the second matches, the scan of line 128 started at index 0 stops there, and the scan of line 130, going on from that stop, reads index 1 and then index 2, past the end |
| Sorts.MergeRuns | Lab1V16.cpp:188-216 | the merge of two runs is as long as both together |
| Sorts.MergeRunsExhausted | Lab1V16.cpp:204-216 | proof helper (unfolds `MergeRuns`): once one run is used up, what follows is the rest of the other run unchanged |
| Sorts.MergeRunsPermutes | Lab1V16.cpp:179-220 | merging is a permutation of the two runs |
| Sorts.MergeRunsNoneBelow | Lab1V16.cpp:188-216 | a lower bound of both runs is a lower bound of their merge |
| Sorts.SortedByCons | Lab1V16.cpp:188-216 | an ascending sequence preceded by a lower bound of it stays ascending |
| Sorts.MergeRunsSorted | Lab1V16.cpp:179-220 | under a strict weak order, merging two ascending runs gives an ascending sequence |
| Sorts.TieTakesRightFirst | Lab1V16.cpp:190-199 | on one-element runs: when the left element is not strictly `<` the right one, the merge writes them swapped |
| Sorts.TieTakesRightHead | Lab1V16.cpp:190-199 | on runs of any length: when the left head is not strictly `<` the right head, the right head is written first and the left head only after it |
| Sorts.SortSeq | Lab1V16.cpp:161-170 | the result of sorting a range is as long as the range |
| Sorts.SortSeqSplit | Lab1V16.cpp:166-169 | proof helper (unfolds `SortSeq`): sorting a range is merging the sorted first `(n-1)/2+1` elements with the sorted rest |
| Sorts.MidpointHalves | Lab1V16.cpp:166-169 | splitting `[start, end]` at `(start + end) / 2` gives those two halves |
| Sorts.SortSeqHalves | Lab1V16.cpp:166-169 | `nowMerge`'s result on a range is the merge of its results on the two halves |
| Sorts.SortSeqPermutes | Lab1V16.cpp:161-170 | sorting is a permutation of the input |
| Sorts.SortSeqSorted | Lab1V16.cpp:161-170 | under a strict weak order, sorting gives an ascending sequence |
| Sorts.Splice | Lab1V16.cpp:218-219 | overwriting a window keeps the length |
| Sorts.SplicePointwise | Lab1V16.cpp:218-219 | a sequence that agrees with the written window inside it and with the old contents outside it is the overwritten sequence |
| Sorts.SpliceInside | Lab1V16.cpp:218-219 | after overwriting a window, the window holds what was written |
| Sorts.SpliceOutside | Lab1V16.cpp:218-219 | after overwriting a window, any range outside it is unchanged |
| Sorts.SplicePrefix | Lab1V16.cpp:218-219 | overwriting a window leaves everything before it unchanged |
| Sorts.SpliceSuffix | Lab1V16.cpp:218-219 | overwriting a window leaves everything after it unchanged |
| Sorts.SpliceSameOutside | Lab1V16.cpp:218-219 | overwriting one window of two sequences that agree outside it gives equal results |
| Sorts.SpliceUnchanged | Lab1V16.cpp:163-164 | writing a range back with its own contents changes nothing |
| Sorts.SpliceThree | Lab1V16.cpp:166-169 | after both halves and then the whole range are overwritten, only the last write shows and the halves hold what the recursive calls wrote |
| Sorts.Merge | Lab1V16.cpp:179-220 | `data[start..end]` becomes the merge of `data[start..mid]` and `data[mid+1..end]`, and every element outside `[start, end]` is unchanged |
| Sorts.FillBuffer | Lab1V16.cpp:181-216 | the fresh buffer of `end - start + 1` elements holds the merge of the two runs |
| Sorts.FillSteps | Lab1V16.cpp:204-216 | the filled prefix, followed by the left remainder and then the right remainder, is the whole merge |
| Sorts.TakeHead | Lab1V16.cpp:188-202 | one turn of the merge loop keeps "buffer so far, then the merge of what is left" equal to the whole merge |
| Sorts.MergeHeads | Lab1V16.cpp:188-202 | the merge loop stops with one run used up; the filled buffer prefix followed by the merge of the remainders is the whole merge |
| Sorts.CopyRun | Lab1V16.cpp:204-219 | a copying loop writes `src[from..to]` into `dst` from `at` on and changes nothing else in `dst` |
| Sorts.NowMergeSteps | Lab1V16.cpp:166-169 | sorting both halves in place and then merging them leaves the range sorted, and the array outside it as it was |
| Sorts.NowMerge | Lab1V16.cpp:161-170 | for `start <= end`, `data[start..end]` becomes its sorted version and the rest of the array is unchanged; the recursion ends |
| Sorts.SortedPrefix | Lab1V16.cpp:148-151 | after sorting the first `n` elements, they are a permutation of the old ones, ascending under a strict weak order, and the rest is unchanged |
| Sorts.MergeSort | Lab1V16.cpp:148-151 | `data[0..n)` becomes a permutation of what it held, ascending when `less` is a strict weak order, and `data[n..]` is unchanged; for `n = 0` nothing happens |
| Sorts.CppHalf | Lab1V16.cpp:166 | C++ `int` division by two truncates toward zero, also for negative sums |
| Sorts.NowMergeCallsAsWritten | Lab1V16.cpp:161-170 | as written, `nowMerge(start, end)` makes no call exactly when `start == end`, else two calls splitting `[start, end]` |
| Sorts.EmptyRangeSpawnsEmptyRange | Lab1V16.cpp:161-170 | as written, a call on an empty range always makes another call on an empty range, so it never reaches the base case |
| Sorts.MergeSortOfNothingRecursesForever | Lab1V16.cpp:148-151 | as written, `mergeSort(data, 0)` leads to `nowMerge(1, 0)`, which calls itself |
| Sorts.MultisetSplit | Lab1V16.cpp:166-169 | the elements of a sequence are those of its two halves |
| Sorts.MultisetCancel | Lab1V16.cpp:148-151 | proof helper for name preservation: a common element cancels from two equal multisets |
| EnrolleeSort.MergeSortByName | Lab1V16.cpp:148-151 | `sorts<enrollee>::mergeSort` leaves `data[0..n)` sorted by name and a permutation of its old contents, the rest unchanged; an already name-sorted array keeps its sequence of names |
| EnrolleeSort.LessIsStrictWeakOrder | Lab1V16.cpp:31-39 | the applicants' `<` is irreflexive, transitive and has transitive incomparability |
| EnrolleeSort.SortedByLess | Lab1V16.cpp:61-69 | ascending under `<` is the same as every earlier record `<=` every later one |
| EnrolleeSort.NamesConcat | Lab1V16.cpp:148-151 | the names of a concatenation are the concatenated names |
| EnrolleeSort.RemoveAt | Lab1V16.cpp:148-151 | removing one record removes its name from the names |
| EnrolleeSort.NamesMultiset | Lab1V16.cpp:148-151 | permuted records have permuted names |
| EnrolleeSort.AscendingNamesUnique | Lab1V16.cpp:148-151 | two ascending sequences of names with the same elements are equal |
| EnrolleeSort.SortSeqByName | Lab1V16.cpp:148-151 | sorting with `<` gives a name-sorted permutation |
| EnrolleeSort.SortingSortedKeepsNames | Lab1V16.cpp:148-151 | sorting an already name-sorted array leaves its sequence of names unchanged |
| EnrolleeSort.EqualNamesSwap | Lab1V16.cpp:190-199 | two records with the same name are already sorted, yet sorting swaps them: the sort is not stable |
| EnrolleeSort.SortTwiceKeepsNames | Lab1V16.cpp:148-151 | sorting twice gives the same sequence of names as sorting once |
| EnrolleeSort.SortTwiceSwapsBack | Lab1V16.cpp:190-199 | for two different records with one name, the second sort undoes the first, so sorting twice differs from sorting once |

## Left out

- `main` (`Lab1V16.cpp:225-288`) is all plumbing and is not modelled:
  - file opening and `sprintf_s` file names;
  - stream parsing of records;
  - `std::chrono` timing and console output;
  - the `std::multimap` built and searched alongside;
  - the `rand()` choice of the target.
- The commented-out data generator (`Lab1V16.cpp:291-327`) writes random strings to files and is not modelled.
- The default arguments of the constructor (`Lab1V16.cpp:18-24`) are not modelled: no modelled operation reads a default-constructed record, since every slot of the merge buffer is written before it is read.
- The buffer of `merge` is never freed (`Lab1V16.cpp:184`). Dafny has no explicit deallocation, so the leak is not modelled.
- Integer overflow is not modelled:
  - indices and sizes are unbounded integers;
  - `(left + right) / 2` and `(start + end) / 2` never overflow;
  - C++ truncating division is written out (`Sorts.CppHalf`) only where a negative sum occurs.
- Characters are compared by code point. `std::string` compares `char` values as `unsigned char`, which agrees for ASCII and for byte-valued characters.
- Merge loop write: in each branch the source writes the chosen head into `temp[k]`. The model picks the head in the branch and writes it once after the `if`, which has the same effect.
- Sorts.Merge: accepts a run that is empty (`mid + 1 == start` or `mid == end`). The source is only ever called with two non-empty runs.
- Sorts.NowMerge: requires `start <= end`, and the corrected `mergeSort` only calls it that way. The as-written behaviour on an empty range is captured by `Sorts.NowMergeCallsAsWritten` and its lemmas, not by the array method.
- Searches.Narrow: requires the array to be sorted by name, as `binary_search` demands of its caller. The bound and termination facts would hold without it.

## Findings

| source | as written | input that shows it | evidently intended | confidence | as-written member | corrected member |
|---|---|---|---|---|---|---|
| Lab1V16.cpp:128 | `while (data[--i] == b)` has no lower bound | a one-record array searched for its own record: the match is at index 0, and the scan reads `data[-1]` | stop stepping back at index 0 | high; not executed | Searches.BackwardScanReadsBeforeStart | Searches.CollectRun |
| Lab1V16.cpp:130 | `while (data[++i] == b)` has no upper bound | a sorted array whose last record, but not its first, has the target's name, e.g. two records with names `x < y` searched for `y`: the loop matches at index 1, the scan of line 128 stops at index 0 inside the array, and the scan of line 130, going on from index 0, pushes index 1 and then reads `data[2]`, which is `data[size]` (`Searches.TwoRecordsReadPastEnd`) | stop stepping forward at index `size - 1` | high; not executed | Searches.ForwardScanReadsPastEnd | Searches.CollectRun |
| Lab1V16.cpp:148-151 | `mergeSort(data, n)` always calls `nowMerge(data, 0, n - 1)` | `n = 0`: `nowMerge(0, -1)` calls `nowMerge(1, -1)`, which calls `nowMerge(1, 0)`, which calls itself forever | do nothing on an empty array | high; not executed | Sorts.MergeSortOfNothingRecursesForever | Sorts.MergeSort |
