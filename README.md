# Instrumented sort engine

The sorting module of a small sorting visualiser has five in-place sorts of
an integer list: selection, insertion, bubble, quick and merge sort. Each
sort counts what it does in a `{comparisons, swaps}` record. Quick sort and
merge sort pass that record down through their recursive calls. For the
engine a "swap" means any relocation of an element:
- an exchange, in selection, bubble and quick sort;
- a shifting write, in insertion sort;
- a write-back, in `merge`.

This project models those five sorts, together with `partition` and
`merge`, as imperative Dafny on an `array<int>`. Each sort is a `method`
whose loops are the loops of the Python functions. The counter record becomes the
datatype `Counting.Counters`. Each sort takes the tally so far and returns
the new one; a top-level call, which builds a fresh record, corresponds to
passing `Counting.Zero`.

Every sort is proved to leave its array sorted, as a permutation of the
input. It is also proved to add to the counters exactly what the source
adds, or to stay within a stated bound. The counts are defined by
functions on the input:
- `SortEngine.SelectionSwaps` gives the swaps of selection sort.
- `Order.Inversions` gives the swaps of insertion and bubble sort.
- `Order.StoppedScans` gives the extra comparisons of insertion sort.
- `Merging.MergeComparisons` gives the comparisons of a merge.
- `Counting.MergeSortWrites` gives the writes of merge sort.

Lemmas then state what those functions mean:
- `Order.InversionsZeroIffSorted`: zero inversions exactly on sorted input.
- `Order.SortedCounts`: the counts on sorted input.
- `Merging.MergeComparisonsBounds`: the bounds on a merge's comparisons.
- `Counting.PassComparisonsTotal`: the closed form `n(n-1)/2`.
- `Counting.MergeSortWritesPow2`: the value `k·2^k`.

The main loops report progress through a redraw callback. The canvas
colours as sorted every position up to `sorted_index`, so each report
marks a prefix. The loop invariants state what holds at each report:
- Selection sort reports `sorted_index = i` after iteration `i`. The
  prefix up to `i` holds its final values (`SortEngine.PrefixPlaced`).
- Insertion sort reports `sorted_index = i` after inserting `a[i]`. The
  prefix up to `i` is sorted, but its values are not final yet.
- Bubble sort reports `sorted_index = n-i-1` after pass `i`, which marks
  the prefix up to `n-i-1`. What holds is that the suffix from `n-i-1` is
  final (`SortEngine.SuffixPlaced`); the prefix need not be sorted. See
  "Findings".

Selection sort's result and swaps are given exactly by
`SortEngine.SelectionRun`. Partition's result is given exactly by
`QuickSorting.Lomuto`, and bubble sort's passes by `SortEngine.Bubbled`.

Modules:
- `Counting` (`counting.dfy`): the counter record and the counting
  functions `PassComparisons`, `Pairs`, `Width` and `MergeSortWrites`,
  with their closed forms.
- `Order` (`order.dfy`): sortedness, element counts above and below a
  value (`Greater`, `Less`), inversions, and ranges sorted in place
  (`RangeSorted`).
- `Merging` (`merging.dfy`): the value-level merge (`Merged`,
  `MergeComparisons`) and the state of the merge loops (`MergeAt`).
- `SortEngine` (`sort_engine.dfy`): selection, insertion and bubble sort.
- `QuickSorting` (`quick_sort.dfy`): `partition` and `quick_sort`.
- `MergeSorting` (`merge_sort.dfy`): `merge` and `merge_sort`.

## Model

| member | source | states |
|---|---|---|
| SortEngine.SelectionSort | Desktop/python/updated_thing.py:125-144 | The array ends sorted and a permutation of the input. It is exactly `SelectionRun(input, 0).0`, and swaps grow by exactly `SelectionSwaps(input)`, which is at most n-1. Comparisons grow by exactly `Pairs(n)` = n(n-1)/2. A sorted input is left unchanged and adds no swap. |
| SortEngine.PlaceMin | Desktop/python/updated_thing.py:129-142 | Outer iteration `i` returns `min_idx`, the first minimum of `a[i..]` as `MinScan` finds it. The array becomes `Swap(old, i, min_idx)` when `min_idx != i` and is unchanged otherwise. Swaps grow by one exactly in the first case, and comparisons by n-i-1. If positions before `i` held their final values, position `i` now does too. |
| SortEngine.ScanMin | Desktop/python/updated_thing.py:130-134 | Returns `MinScan(a, i, n)`: the first position in `a[i..]` of a minimum, at most every later element and strictly below every earlier one in the range. Comparisons grow by n-i-1. |
| SortEngine.MinScan | Desktop/python/updated_thing.py:130-134 | The inner loop as a function: the index it settles on lies in the scanned range. |
| SortEngine.MinScanFirst | Desktop/python/updated_thing.py:130-134 | The index the scan of `s[i..j]` settles on holds a minimum of that range, and strictly below every earlier element of it, since `<` moves it only on a strictly smaller one. |
| SortEngine.MinScanFirstMin | Desktop/python/updated_thing.py:130-134 | Over the whole suffix `s[i..]`, the scan finds its first minimum. |
| SortEngine.SelectionRun | Desktop/python/updated_thing.py:128-142 | Defines the outer loop from position `i` on as a function: the arrangement it leaves and the exchanges it makes, one for each `min_idx != i`. |
| SortEngine.SelectionSwaps | Desktop/python/updated_thing.py:128-142 | Defines the swaps selection sort makes on an input: those of `SelectionRun` from 0. |
| SortEngine.SelectionRunSorted | Desktop/python/updated_thing.py:128-142 | From a placed prefix, the run leaves a sorted permutation of its input. |
| SortEngine.SelectionRunSwapsBound | Desktop/python/updated_thing.py:128-142 | The run from `i` makes at most n-i-1 exchanges, since none happens at the last position. |
| SortEngine.SelectionRunOnSorted | Desktop/python/updated_thing.py:133-137 | On sorted input the run leaves the input unchanged and makes no exchange. |
| SortEngine.SelectionExample | Desktop/python/updated_thing.py:128-142 | On `[5, 3, 8, 1]` selection sort leaves `[1, 3, 5, 8]` after exactly 2 exchanges. |
| SortEngine.SelectionExampleRest | Desktop/python/updated_thing.py:128-142 | From position 1 of `[1, 3, 8, 5]` the run leaves `[1, 3, 5, 8]` after one exchange. |
| SortEngine.SelectionExampleLast | Desktop/python/updated_thing.py:128-142 | From position 2 of `[1, 3, 8, 5]` the run exchanges `5` in and leaves `[1, 3, 5, 8]`. |
| SortEngine.PrefixPlaced | Desktop/python/updated_thing.py:135-142 | Defines the first `i` positions holding their final values: sorted, and none above an element after them. This is the part that `sorted_index = i-1` colours. |
| SortEngine.FirstMinOf | Desktop/python/updated_thing.py:130-134 | Defines `m` as the first position of a minimum of `s[i..]`. |
| SortEngine.SelectionTracks | Desktop/python/updated_thing.py:128-142 | Defines the outer loop's state at position `i` after `k` exchanges: what `SelectionRun` has left to do from `i` ends in the same array as the run from the start, and `k` plus its exchanges make `SelectionSwaps`. |
| SortEngine.SelectionAdvance | Desktop/python/updated_thing.py:128-142 | One outer iteration keeps the loop in step with `SelectionRun` from the start, counting its exchange. |
| Order.Exchange | Desktop/python/updated_thing.py:138 | The array becomes `Swap` of the old array at `i` and the minimum's position. |
| SortEngine.SelectionStep | Desktop/python/updated_thing.py:137-142 | Exchanging the first minimum of `s[i..]` into place `i` extends the placed prefix by one, matching `sorted_index=i`. |
| SortEngine.SortedFirstMin | Desktop/python/updated_thing.py:133-137 | On sorted input the first minimum of `s[i..]` is at `i`, so `min_idx != i` fails and no exchange happens. |
| SortEngine.InsertionSort | Desktop/python/updated_thing.py:146-165 | The array ends a sorted permutation of the input. Swaps grow by the input's inversion count. Comparisons grow by inversions plus the insertions whose scan stopped on an element. |
| SortEngine.InsertKey | Desktop/python/updated_thing.py:151-162 | Iteration `i`: if `a[..i]` is sorted, `a[..i+1]` becomes a sorted permutation of the old `a[..i+1]`, and the tail is untouched. Swaps grow by the number of earlier elements greater than the key. Comparisons grow by that number plus one if an element stopped the scan. |
| SortEngine.ShiftGreater | Desktop/python/updated_thing.py:152-161 | The `while` loop stops at `k`: every old element in `[k, i)` is greater than the key, and the one before `k`, if any, is not. The array is the old one with `[k, i)` shifted up one. Counters grow by `i-k` shifts, plus the comparison that stopped the loop when `k > 0`. |
| SortEngine.CopyUp | Desktop/python/updated_thing.py:155 | One shifting write: position `j+1` takes the old value at `j`, and nothing else changes. |
| SortEngine.ShiftedUp | Desktop/python/updated_thing.py:153-159 | The array after shifting `[k, i)` up one position has the original length. |
| SortEngine.ShiftedUpStep | Desktop/python/updated_thing.py:155-159 | One more shifting write at `k-1` extends the shifted block down by one position. |
| SortEngine.InsertKeyPlaced | Desktop/python/updated_thing.py:160-162 | Writing the key into the gap left by the scan sorts the prefix up to `i` and keeps its elements. The tail is untouched. The number of shifts `i-k` equals the number of earlier elements greater than the key. |
| SortEngine.ShiftedRight | Desktop/python/updated_thing.py:162 | After the key is written, the prefix is `s[..k] + [key] + s[k..i]`: a rotation, hence a permutation. The tail is unchanged. |
| SortEngine.InsertionStepCounts | Desktop/python/updated_thing.py:150-162 | The inversions and stopped scans of `s[..i+1]` are those of `s[..i]` plus what insertion `i` adds. |
| SortEngine.BubbleSort | Desktop/python/updated_thing.py:167-182 | With no early exit, comparisons grow by exactly `Pairs(n)` = n(n-1)/2. Swaps grow by exactly the input's inversion count. The array ends a sorted permutation of the input. |
| SortEngine.BubblePass | Desktop/python/updated_thing.py:171-181 | Pass `i` leaves exactly `Bubbled(old, n-i-1)`. If the last `i` positions held their final values, then after the pass the last `i+1` do: the suffix from `n-i-1` is placed. The array stays a permutation. Comparisons grow by n-i-1. Swaps grow by exactly the inversions the pass removes. |
| SortEngine.CompareAdjacent | Desktop/python/updated_thing.py:172-180 | One comparison of adjacent elements: they are exchanged exactly when the left one is greater. Comparisons grow by one, and swaps by one exactly on an exchange. |
| SortEngine.AllPlaced | Desktop/python/updated_thing.py:181 | When every position is placed, the array is sorted and has no inversion left. |
| SortEngine.BubbleStep | Desktop/python/updated_thing.py:176-177 | A comparison carries the largest element seen so far one step right and leaves the placed suffix alone. |
| SortEngine.BubblePassEnd | Desktop/python/updated_thing.py:181 | At the end of a pass the largest unplaced element sits at the end of the unplaced part, so one more position is placed. |
| SortEngine.Bubbled | Desktop/python/updated_thing.py:172-180 | The first `j` comparisons of a pass keep the length of the array. |
| SortEngine.BubbledPlaced | Desktop/python/updated_thing.py:172-180 | After `j` comparisons of the pass, the maximum of the first `j+1` elements is at `j`, and the placed suffix is unchanged. |
| SortEngine.BubbledPerm | Desktop/python/updated_thing.py:172-180 | The comparisons of a pass only rearrange the array. |
| SortEngine.SteppedInversions | Desktop/python/updated_thing.py:176-178 | One comparison of a pass exchanges exactly when the pair is out of order, and the exchange removes exactly one inversion, so the swap it counts plus the inversions left equal the inversions before. |
| SortEngine.SuffixPlaced | Desktop/python/updated_thing.py:171-181 | Defines the positions from `b` on holding their final values: sorted, and none below an element before them. After pass `i` this holds from `b = n-i-1`. |
| SortEngine.MaxAt | Desktop/python/updated_thing.py:176-178 | Defines position `j` as holding the largest element of `s[..j+1]`, as the comparisons of a pass carry it right. |
| SortEngine.BubbleProgress | Desktop/python/updated_thing.py:170-181 | Defines the state after `i` passes: a permutation of the input whose last `i` positions are placed. |
| SortEngine.BubbleCounted | Desktop/python/updated_thing.py:170-181 | Defines that state after `k` exchanges: each of them removed one inversion of the input. |
| SortEngine.BubbleStepped | Desktop/python/updated_thing.py:176-178 | Defines one comparison of a pass: the pair at `j, j+1` is exchanged when the left one is greater. |
| SortEngine.BubbleAdvance | Desktop/python/updated_thing.py:170-181 | A pass that places one more position and removes `d` inversions advances bubble sort by one pass and `d` exchanges. |
| SortEngine.BubbleRound | Desktop/python/updated_thing.py:170-181 | One iteration of the outer loop: the progress advances by one pass, with n-i-1 comparisons. |
| SortEngine.BubbleReportAsWritten | Desktop/python/updated_thing.py:181 | After the first pass over `[3, 2, 1]` the array is `[2, 1, 3]`. The prefix that `sorted_index = 2` colours is not placed, while the suffix from 2 is. |
| SortEngine.BubbleFirstPass | Desktop/python/updated_thing.py:171-180 | The first pass over `[3, 2, 1]` leaves `[2, 1, 3]`. |
| SortEngine.BubbleFirstPassPlaced | Desktop/python/updated_thing.py:181 | In `[2, 1, 3]` the prefix of three is not placed and the suffix from 2 is. |
| SortEngine.BubblePassEffect | Desktop/python/updated_thing.py:171-181 | A whole pass places one more position and only rearranges the array. |
| QuickSorting.Partition | Desktop/python/updated_thing.py:195-210 | Leaves exactly the Lomuto arrangement: `p` is one past the scan's front block and the array is `Swap(Scanned(old, low, high, old[high]).0, p, high)`. Hence `low <= p <= high`, and the old pivot `a[high]` ends at `p`, with everything before it in the range strictly below it and everything after it not below it. Only `a[low..high]` is rearranged. Comparisons grow by `high-low` and swaps by `(p-low)+1`. |
| QuickSorting.Partitioned | Desktop/python/updated_thing.py:195-210 | Defines a partition of `[low, high]` around the old `s[high]` at `p`: the range is rearranged, everything before `p` in it is strictly below the pivot, nothing after `p` is, and the outside is untouched. |
| QuickSorting.PartitionedRank | Desktop/python/updated_thing.py:196-210 | For any partitioned result, `p - low` is the number of elements of `a[low..high-1]` below the pivot, so Partition's swaps are those elements plus one. |
| QuickSorting.PartitionScan | Desktop/python/updated_thing.py:197-205 | The `for` loop leaves the array and `i` exactly as the scan function `Scanned` says. Comparisons grow by `high-low` and swaps by one per element below the pivot. |
| QuickSorting.CompareWithPivot | Desktop/python/updated_thing.py:199-205 | One scan step: an element below the pivot is exchanged to `i+1`, which is counted even when the two positions coincide. |
| QuickSorting.Scanned | Desktop/python/updated_thing.py:197-205 | The scan keeps the length of the array, and `low-1 <= i < j`. |
| QuickSorting.ScanKept | Desktop/python/updated_thing.py:197-205 | Defines the scan's loop state after `s[low..j]`: the block `[low, i]` is below the pivot, `(i, j)` is not, and nothing outside `[low, j)` has moved. |
| QuickSorting.ScanStep | Desktop/python/updated_thing.py:200-203 | One scan step keeps the loop's state: the block `[low, i]` is below the pivot, `(i, j)` is not, and nothing from `j` on or before `low` has moved. |
| QuickSorting.ScannedKept | Desktop/python/updated_thing.py:197-205 | The scan of `s[low..j]` establishes that state. |
| QuickSorting.ScannedAhead | Desktop/python/updated_thing.py:198-205 | The scan never touches a position it has not reached. |
| QuickSorting.ScannedPerm | Desktop/python/updated_thing.py:202 | The scan only rearranges the array. |
| QuickSorting.ScannedCount | Desktop/python/updated_thing.py:200-203 | The front block ends at `low-1+Less(s[low..j], pivot)`. |
| QuickSorting.ScanResult | Desktop/python/updated_thing.py:197-205 | The full scan up to `high` keeps the loop's state, permutes the array, and counts the elements below the pivot. |
| QuickSorting.PivotPlaced | Desktop/python/updated_thing.py:206-210 | The Lomuto arrangement is a partition at `p`: exchanging the pivot with `i+1` after the scan puts it between the two sides. |
| QuickSorting.Lomuto | Desktop/python/updated_thing.py:195-210 | Defines what `partition` makes of a range: the scan, then the exchange of the pivot with position `i+1`, which it returns. |
| QuickSorting.LomutoExample | Desktop/python/updated_thing.py:195-210 | On `[2, 1, 0]` the partition returns 0 and leaves `[0, 1, 2]`, one arrangement among the several partitions around 0. |
| QuickSorting.ScanStepped | Desktop/python/updated_thing.py:200-203 | Defines one scan step: an element below the pivot is exchanged to the end of the front block, which grows by one. |
| QuickSorting.LessSnoc | Desktop/python/updated_thing.py:200-203 | Extending the scanned range by one element adds one to the count below the pivot exactly when that element is below it. |
| QuickSorting.SplitLess | Desktop/python/updated_thing.py:200 | A block below `x` followed by a block not below it holds exactly its first block's length of elements strictly below `x`. |
| QuickSorting.LastNotLess | Desktop/python/updated_thing.py:196-200 | The pivot is not below itself, so counting over the whole range or over all but the last element gives the same number. |
| QuickSorting.QuickSort | Desktop/python/updated_thing.py:184-193 | Sorts `a[low..high]` in place as a permutation and leaves everything outside unchanged. A range with `low >= high`, including `high = -1` on an empty array, changes nothing and adds zero. Comparisons stay within n(n-1)/2 and swaps within n(n+1)/2, for n the width of the range. |
| QuickSorting.WithinWorstCase | Desktop/python/updated_thing.py:184-193 | Defines counters that grew by at most `n(n-1)/2` comparisons and `n(n+1)/2` swaps on a range of `n` elements. |
| QuickSorting.QuickSorted | Desktop/python/updated_thing.py:184-193 | Defines what quick sort of `[low, high]` promises: the range sorted in place (`RangeSorted`), within the worst-case counts. |
| QuickSorting.QuickJoin | Desktop/python/updated_thing.py:189-192 | A partition followed by sorting both sides sorts the range, within the worst-case counts. |
| QuickSorting.QuickCounts | Desktop/python/updated_thing.py:189-192 | The counter bounds of the range follow from the partition's exact counts and the bounds of the two sides. |
| QuickSorting.PivotJoin | Desktop/python/updated_thing.py:190-192 | Sorted sides around a pivot that separates them make a sorted permutation of the range. |
| MergeSorting.MergeSort | Desktop/python/updated_thing.py:212-222 | Sorts `a[left..right]` in place as a permutation and leaves everything outside unchanged. `left >= right` changes nothing and adds zero. Swaps grow by exactly `MergeSortWrites` of the width. Comparisons grow by at most the swaps added. |
| MergeSorting.Merge | Desktop/python/updated_thing.py:224-254 | Writes `Merged(L, R)` of the old halves over `a[left..right]` and leaves the rest untouched. Swaps grow by exactly `right-left+1` and comparisons by `MergeComparisons(L, R)`. |
| MergeSorting.MergeHeads | Desktop/python/updated_thing.py:229-240 | The first loop ends with one half used up. On the way it writes the merged order and makes all of `MergeComparisons(L, R)`, one swap per write. |
| MergeSorting.CopyLeftRest | Desktop/python/updated_thing.py:241-247 | The second loop copies what is left of `L`, one swap per write and no comparison. |
| MergeSorting.CopyRightRest | Desktop/python/updated_thing.py:248-254 | The third loop copies what is left of `R`. After it, the range holds `Merged(L, R)` and the rest of the array is untouched. |
| MergeSorting.TakeLeft | Desktop/python/updated_thing.py:231-233 | Writing `L[i]` when it is strictly below `R[j]`, or when `R` is used up, advances the merge state. |
| MergeSorting.TakeRight | Desktop/python/updated_thing.py:234-236 | Writing `R[j]` on `R[j] <= L[i]` (ties included), or when `L` is used up, advances the merge state. |
| MergeSorting.MergeRest | Desktop/python/updated_thing.py:241-254 | Once either half is used up, no comparison is left to make. |
| MergeSorting.MergeJoin | Desktop/python/updated_thing.py:217-221 | Sorting both halves and merging them sorts the range with the counts of `MergeSortWrites`. |
| MergeSorting.MergeSides | Desktop/python/updated_thing.py:219-221 | Merging the sorted halves gives a sorted permutation of the range, and the outside is untouched. |
| Merging.Merged | Desktop/python/updated_thing.py:229-254 | Defines the merged order: the left head is taken when strictly below the right head, the right head otherwise, and the rest of a half once the other is used up. |
| Merging.MergeComparisons | Desktop/python/updated_thing.py:229-240 | Defines the comparisons of a merge: one per write while both halves have elements left. |
| Merging.MergeAt | Desktop/python/updated_thing.py:225-254 | Defines the merge loops' state after `L[..i]` and `R[..j]` are written: the first `i+j` merged elements are in place from `left`, and the rest of the merge is `Merged(L[i..], R[j..])`. |
| Merging.MergedPermutation | Desktop/python/updated_thing.py:229-254 | The merged sequence holds exactly the elements of both halves. |
| Merging.MergedSorted | Desktop/python/updated_thing.py:229-254 | Two sorted halves merge into a sorted sequence. |
| Merging.MergedLowerBound | Desktop/python/updated_thing.py:229-254 | A lower bound of both halves bounds the merged sequence. |
| Merging.PrependSorted | Desktop/python/updated_thing.py:231-236 | Writing a value no larger than anything still to come keeps the output sorted. |
| Merging.MergeComparisonsBounds | Desktop/python/updated_thing.py:229-240 | A merge of `n` elements compares at most `n-1` times and at least the shorter half's length; with an empty half it compares nothing. |
| Merging.MergeExample | Desktop/python/updated_thing.py:229-254 | Merging `[2]` with `[1]` writes `[1, 2]` after one comparison. |
| Merging.Written | Desktop/python/updated_thing.py:228-254 | Writing a prefix of the merged sequence from `left` keeps the array's length. |
| Merging.WrittenNext | Desktop/python/updated_thing.py:232-240 | Writing `arr[k]` for `k = left+i+j` extends the written prefix by one element. |
| Merging.MergeAtStart | Desktop/python/updated_thing.py:225-228 | Before the loops, nothing is written and all of the merge is still to do. |
| Merging.MergeAtLeft | Desktop/python/updated_thing.py:231-233 | Taking from `L` writes the next merged element and drops one comparison from those left, if `R` is not used up. |
| Merging.MergeAtRight | Desktop/python/updated_thing.py:234-236 | Taking from `R` does the same on the other side, ties included. |
| Merging.MergeAtEnd | Desktop/python/updated_thing.py:248-254 | When both halves are used up, the array is the old one with the range replaced by `Merged(L, R)`. |
| Counting.Counters | Desktop/python/updated_thing.py:126-127 | Defines the `{"comparisons", "swaps"}` tally that every sort creates when none is passed and updates. |
| Counting.Zero | Desktop/python/updated_thing.py:126-127 | Defines the fresh tally of a top-level call, both counts zero. The same default appears at lines 147-148, 168-169, 185-186 and 213-214. |
| Counting.PassComparisons | Desktop/python/updated_thing.py:129-132 | Defines the comparisons of the first `i` outer passes of selection or bubble sort: pass `t` compares `n-t-1` times. |
| Counting.Pairs | Desktop/python/updated_thing.py:171-173 | Defines `n(n-1)/2`, the number of adjacent comparisons of all the passes, built one element at a time. |
| Counting.Width | Desktop/python/updated_thing.py:189-192 | Defines the number of elements of `[low, high]`, zero when `low > high`. |
| Counting.MergeSortWrites | Desktop/python/updated_thing.py:215-221 | Defines merge sort's writes on `n` elements: a merge writes its whole range, and the split at `(left + right) // 2` leaves `(n+1)/2` and `n/2` elements. |
| Counting.PassComparisonsTotal | Desktop/python/updated_thing.py:129-132 | The first `i` passes make `i(2n-i-1)/2` comparisons, so all `n` make `n(n-1)/2`. |
| Counting.PassComparisonsAll | Desktop/python/updated_thing.py:171-173 | The comparisons of all passes equal `Pairs(n)`. |
| Counting.PairsClosed | Desktop/python/updated_thing.py:171-173 | `2·Pairs(n) = n(n-1)`. |
| Counting.PairsSum | Desktop/python/updated_thing.py:189-192 | The pairs of two groups together are those inside each group plus `a·b` across. |
| Counting.QuickSplitBound | Desktop/python/updated_thing.py:189-192 | A partition's cost plus the worst-case costs of its two sides stays within the worst case of the whole range, for both comparisons and swaps. |
| Counting.MergeSortWritesSplit | Desktop/python/updated_thing.py:217-221 | Splitting at `(left+right)//2` gives the two halves `MergeSortWrites` recurses on. |
| Counting.Pow2 | Desktop/python/updated_thing.py:217-221 | Powers of two are positive. |
| Counting.MergeSortWritesPow2 | Desktop/python/updated_thing.py:212-254 | On `2^k` elements merge sort writes `k·2^k` times. |
| Order.Sorted | Desktop/python/updated_thing.py:125-254 | Defines non-decreasing order, what each sort leaves. |
| Order.RangeSorted | Desktop/python/updated_thing.py:189-193 | Defines a range `[low, high]` sorted in place: a range of two or more elements is sorted and keeps its elements, a shorter one is left alone, and nothing outside moves. |
| Order.Swap | Desktop/python/updated_thing.py:138 | An exchange swaps the two positions, keeps every other one and is a permutation. |
| Order.Greater | Desktop/python/updated_thing.py:153 | The count of elements above a value is at most the length. |
| Order.Less | Desktop/python/updated_thing.py:200 | The count of elements below a value is at most the length. |
| Order.GreaterNone | Desktop/python/updated_thing.py:153 | No element is above `x` if and only if the count is zero. |
| Order.GreaterAll | Desktop/python/updated_thing.py:153 | Every element is above `x` if and only if the count is the length. |
| Order.GreaterAppend | Desktop/python/updated_thing.py:153 | The count of elements above `x` is additive over concatenation. |
| Order.GreaterPerm | Desktop/python/updated_thing.py:153 | The count of elements above `x` depends only on the multiset. |
| Order.LessNone | Desktop/python/updated_thing.py:200 | No element is below `x` if and only if the count is zero. |
| Order.LessAll | Desktop/python/updated_thing.py:200 | Every element is below `x` if and only if the count is the length. |
| Order.LessAppend | Desktop/python/updated_thing.py:200 | The count of elements below `x` is additive over concatenation. |
| Order.LessPerm | Desktop/python/updated_thing.py:200 | The count of elements below `x` depends only on the multiset. |
| Order.InsertSorted | Desktop/python/updated_thing.py:153-162 | Inserting the key in the gap the scan stops at keeps the prefix sorted, and the shifted elements are exactly those above the key. |
| Order.InsertSortedOrder | Desktop/python/updated_thing.py:162 | A key between a lower and an upper block of a sorted sequence keeps it sorted. |
| Order.SortedJoin | Desktop/python/updated_thing.py:190-192 | Two sorted blocks separated by a value join into a sorted sequence. |
| Order.RangePerm | Desktop/python/updated_thing.py:195-210 | A permutation that fixes everything outside a range permutes the range. |
| Order.MiddlePerm | Desktop/python/updated_thing.py:195-210 | The same, stated with equal prefix and suffix. |
| Order.PermMember | Desktop/python/updated_thing.py:190-192 | Every element of a permutation occurs in the original. |
| Order.Inversions | Desktop/python/updated_thing.py:153-158 | Defines the inversions of a sequence: the pairs of positions `i < j` with `s[i] > s[j]`, counted as the earlier elements greater than each element. |
| Order.StoppedScans | Desktop/python/updated_thing.py:160-161 | Defines how many insertions stop on an element not greater than the key rather than running off the left end. |
| Order.InversionsZeroIffSorted | Desktop/python/updated_thing.py:167-182 | A sequence has no inversions if and only if it is sorted, so bubble and insertion sort make no swap exactly on sorted input. |
| Order.AdjacentSwapInversions | Desktop/python/updated_thing.py:176-178 | Exchanging an adjacent out-of-order pair removes exactly one inversion. |
| Order.InversionsBound | Desktop/python/updated_thing.py:176-178 | There are at most n(n-1)/2 inversions, so bubble and insertion sort make at most that many swaps. |
| Order.SortedCounts | Desktop/python/updated_thing.py:150-162 | On sorted input insertion sort shifts nothing, and every scan but the first stops: n-1 comparisons and 0 swaps. |
| Order.SortedTail | Desktop/python/updated_thing.py:125-254 | The tail of a sorted sequence is sorted. |
| Order.MultisetTail | Desktop/python/updated_thing.py:125-254 | The tail's multiset is the whole minus the head. |
| Order.SortedHeads | Desktop/python/updated_thing.py:125-254 | Two sorted permutations of each other start with the same element. |
| Order.SortedPermUnique | Desktop/python/updated_thing.py:125-254 | A sorted permutation is unique, so all five sorts leave the same array on the same input. |
| Order.SideSorted | Desktop/python/updated_thing.py:189-192 | A range, possibly empty, sorted in place is sorted and keeps its elements, whether or not the sort had anything to do. |

## Left out
- `draw_callback` and `time.sleep` calls: rendering and animation pacing only, with no effect on the array or the counters. The invariants state what holds at each `sorted_index` report.
- `tim_sort`: a wrapper over the language's built-in sort, whose code is not part of this model.
- The canvas, widget, quiz and application classes, the benchmark with its random inputs, wall-clock timing and plotting, and `generate_array`'s randomness: user interface, I/O and randomness.
- The `counters=None` default: every sort takes the tally explicitly, and a top-level call passes `Counting.Zero`. The dictionary shared across the recursion becomes a value passed down and returned. Sharing it is observable only through the totals, which the model threads the same way.
- The `high=None` / `right=None` defaults: callers pass `a.Length - 1`.
- Python negative indexing: `QuickSort` and `MergeSort` require an in-bounds range whenever `low < high`. That is what the top-level call and the recursion always pass. The source would index from the end on a negative `low`, and no caller does that.
- QuickSorting.QuickSort: the counters are bounded by the worst case rather than given exactly. `Partition`'s counts are exact, and `PartitionedRank` ties its swaps to the elements below the pivot.
- MergeSorting.MergeSort: the comparisons are bounded, between zero and the writes of the same call; the writes are exact.
- MergeSorting.Merge: the three `while` loops of `merge` are the three methods `MergeHeads`, `CopyLeftRest` and `CopyRightRest`, called in order on the same array and indices. Each loop's state carries over unchanged from one to the next.
- Merge does not keep equal elements in their original order, and the model claims no stability: line 231 tests `L[i] < R[j]` strictly, so a tie takes the element of the right half.
- Integer width: Python integers are unbounded, and so are Dafny's `int` and `nat`, so no wrap-around arises.

## Findings

| source | as written | input that shows it | evidently intended | confidence | as-written member | corrected member |
|---|---|---|---|---|---|---|
| Desktop/python/updated_thing.py:181 | After pass `i`, bubble sort reports `sorted_index = n-i-1`, and the canvas colours every position up to it as sorted: the prefix `a[..n-i]`. | `[3, 2, 1]`: the first pass leaves `[2, 1, 3]`, and `sorted_index = 2` colours the whole unsorted array. | The suffix from `n-i-1` is the placed part, which is what the pass guarantees. | not executed | SortEngine.BubbleReportAsWritten | SortEngine.BubblePass |
