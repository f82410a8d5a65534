# Array-backed max-heap with instrumentation, in Dafny

This project models the core of a Java benchmark of binary max-heaps and proves it correct. The core has three parts:

- `algorithms.MaxHeap` is the baseline heap. Every array read and write in the mutating operations goes through `read`, `write` or `swap`, which count; `peek` reads `heap[0]` directly and counts nothing. The sifts move elements with `swap`.
- `algorithms.MaxHeapOptimized` has the same public operations, without `increaseKeyByValue`. Its sifts hold the moving value in a local. They shift parents or children into the hole it leaves, and write the value once at the end.
- `metrics.PerformanceTracker` holds four work counters (comparisons, swaps, array accesses, allocations) and a start/stop timer. It can render a CSV header and a CSV line.

The model is organised as follows:

| file | module | contents |
|---|---|---|
| `outcomes.dfy` | `Outcomes` | The exceptions, and `Result`/`Outcome` values standing for "returned or threw". |
| `java_semantics.dfy` | `JavaSemantics` | 32-bit `int` wrap-around, the unsigned shift `>>> 1`, and `Arrays.copyOf`. |
| `tracker.dfy` | `Metrics` | The `PerformanceTracker` class with its counters as fields. The timer and the CSV text are pure functions with their lemmas. |
| `heap_spec.dfy` | `HeapSpec` | The specification that both heap classes are proved against. |
| `max_heap.dfy` | `BaselineHeap` | The class `MaxHeap`: `heap: array<int>`, `size`, and an optional tracker. Every method is proved against `HeapSpec`. |
| `max_heap_optimized.dfy` | `OptimizedHeap` | The class `MaxHeapOptimized`, proved against the same `HeapSpec` functions. |
| `cross_check.dfy` | `CrossCheck` | One baseline and one optimized heap given the same calls. They keep equal contents and return equal results. |

`heap_spec.dfy` contains:

- index arithmetic with Java semantics;
- the max-heap property;
- the swap-based sifts as functions on `heap[0..size)`;
- each public operation as a function;
- the work each variant reports, as cost functions;
- lemmas: heap order is kept, elements are kept as a multiset, the root is the maximum, and draining a heap sorts it.

Each loop of the Java code is a Dafny `while` loop whose invariants tie the array to the specification function. Examples are `siftUp`, `siftDown`, the `buildHeap` loop and the scan of `increaseKeyByValue`. The hole-based sifts are related to the swap-based specification through the array with the held value put back into the hole (`heap[..size][idx := value]`). As a result, both classes are proved to leave exactly the same `heap[0..size)` after every operation.

The work reported to the tracker is specified exactly:

- Each method states that the tracker's comparisons, swaps and array accesses grow by a cost function of its inputs, and that the timer stays unchanged. This is `Metrics.Reported`.
- The allocations stay unchanged, except where storage is created: the constructors, `ensureCapacity` and therefore `insert` charge the growth in length (`Metrics.Counters.Allocate`).
- Lemmas compare the two variants:
  - sift-up reports the same comparisons and swaps in both variants;
  - the baseline sift-down reports one extra comparison per level it visits;
  - the baseline `extractMax` reports one extra swap.

Java constructors that may throw become static methods `New` and `FromArray` that return a `Result`. Their successful paths go through the named constructors `WithCapacity` and `Seeded`.

Three behaviours of the code are easy to miss, and the model follows the code in each:

- **Building from 0 or 1 elements fails.**
  - In the code, `parent(size - 1)` is `(size - 2) >>> 1`, which is `Integer.MAX_VALUE` for sizes 0 and 1, so `buildHeap` calls a sift-down at that index.
  - The baseline's `left()` then wraps to -1, which passes the leaf test. It counts two comparisons and one or two reads before a read goes out of range.
  - The optimized sift-down's first read is out of range, before anything is counted.
  - `FromArray` therefore returns `Err(IndexOutOfBounds)` for arrays shorter than two, and reports `FailedBuildCost`.
- **The counted work differs between the variants.**
  - The baseline sift-down counts a comparison on each level before it looks at the children; the optimized one does not.
  - The baseline `extractMax` counts a swap; the optimized one copies by assignment and counts none.
  - The optimized sifts also count the read of the moving value and its final write.
  - Sift-up counts the same comparisons and swaps in both variants.
- **The CSV line has no allocations column.** `csvHeader` names seven columns (`PerformanceTracker.java:44`), and the benchmark runner's own `writeCsv` formats seven values (`BenchmarkRunner.java:73`). `toCsv`'s format string has only six placeholders (`PerformanceTracker.java:48`), so `String.format` ignores the seventh argument and allocations never reach the line.

## Model

| member | source | states |
|---|---|---|
| JavaSemantics.Wrap | src/main/java/algorithms/MaxHeap.java:114 | The result is an int, congruent to x modulo 2^32, and equal to x when x already fits: Java's wrapping int arithmetic. |
| JavaSemantics.UnsignedShiftRight1 | src/main/java/algorithms/MaxHeap.java:113 | `x >>> 1` is never negative. A non-negative x is halved. A negative x is read as the unsigned x + 2^32 and halved, which lands above INT_MAX / 2. |
| JavaSemantics.CopiedOf | src/main/java/algorithms/MaxHeap.java:79 | What `Arrays.copyOf(a, n)` holds: exactly n slots, the i-th equal to a[i] where a has one and 0 beyond. |
| JavaSemantics.CopyOf | src/main/java/algorithms/MaxHeap.java:23 | Returns a fresh array of the requested length whose contents are `CopiedOf` the old contents (prefix kept, zero padding). |
| HeapSpec.Parent | src/main/java/algorithms/MaxHeap.java:113 | For i >= 1 the parent is (i - 1) / 2, below i. For i = 0 and i = -1 the unsigned shift yields Integer.MAX_VALUE. |
| HeapSpec.Left | src/main/java/algorithms/MaxHeap.java:114 | For indices below MAX_SIZE the left child is 2i + 1, and its right sibling is still an int. At Integer.MAX_VALUE the shift wraps to -1. |
| HeapSpec.SiftedUp | src/main/java/algorithms/MaxHeap.java:83-92 | Sift-up keeps the length. SiftUpPermutes and SiftUpRestoresHeap state what it achieves. |
| HeapSpec.LargerChild | src/main/java/algorithms/MaxHeap.java:98-104 | The larger child is the left or the right child of k, exists, and is no smaller than either child that exists. |
| HeapSpec.SiftedDown | src/main/java/algorithms/MaxHeap.java:94-111 | Sift-down keeps the length. SiftDownPermutes and SiftDownRestoresOrder state what it achieves. |
| HeapSpec.Built | src/main/java/algorithms/MaxHeap.java:30 | The descending loop of sift-downs keeps the length. |
| HeapSpec.Heapified | src/main/java/algorithms/MaxHeap.java:29-31 | buildHeap keeps the length. HeapifyMakesHeap and HeapifyPermutes state the rest. |
| HeapSpec.GrownLength | src/main/java/algorithms/MaxHeap.java:75-81 | The new length never shrinks and is at least minCapacity. It stays the same when minCapacity fits; otherwise it is the larger of twice the old length and minCapacity. |
| HeapSpec.Inserted | src/main/java/algorithms/MaxHeap.java:41-46 | insert adds exactly one slot. |
| HeapSpec.Extracted | src/main/java/algorithms/MaxHeap.java:48-55 | extractMax removes exactly one slot. |
| HeapSpec.Settled | src/main/java/algorithms/MaxHeap.java:53 | The final guarded sift-down keeps the length. |
| HeapSpec.Shrunk | src/main/java/algorithms/MaxHeap.java:51-52 | Swapping the root with the last element and shrinking leaves one slot fewer. |
| HeapSpec.Increased | src/main/java/algorithms/MaxHeap.java:57-63 | increaseKey keeps the length. |
| HeapSpec.FirstIndexOf | src/main/java/algorithms/MaxHeap.java:66-72 | Returns the lowest index holding x, or -1 exactly when x does not occur. Every index before the result holds something else. |
| HeapSpec.Swap | src/main/java/algorithms/MaxHeap.java:117-124 | The two elements trade places and every other slot is unchanged; `swap(i, i)` changes nothing. |
| HeapSpec.LastParent | src/main/java/algorithms/MaxHeap.java:30 | For two elements or more, buildHeap's first index `parent(size - 1)` is the last index that has a left child. Below two elements the spec's loop runs zero times; the code's trap is modelled in `FromArray`. |
| HeapSpec.SwapPermutes | src/main/java/algorithms/MaxHeap.java:117-124 | A swap keeps the multiset of elements. |
| HeapSpec.SiftUpPermutes | src/main/java/algorithms/MaxHeap.java:83-92 | Sift-up keeps the multiset of elements. |
| HeapSpec.SiftDownPermutes | src/main/java/algorithms/MaxHeap.java:94-111 | Sift-down keeps the multiset of elements. |
| HeapSpec.BuildPermutes | src/main/java/algorithms/MaxHeap.java:30 | The build loop keeps the multiset of elements. |
| HeapSpec.SiftUpRestoresHeap | src/main/java/algorithms/MaxHeap.java:83-92 | A heap broken only between k and its parent (with k's parent above k's children) is a heap after sifting up from k. |
| HeapSpec.SiftDownRestoresOrder | src/main/java/algorithms/MaxHeap.java:94-111 | If the subtree from lo is ordered except between k and its children, it is fully ordered after sifting down from k. |
| HeapSpec.BuildRestoresHeap | src/main/java/algorithms/MaxHeap.java:30 | If every pair below i + 1 is ordered, sifting down from i back to 0 yields a heap. |
| HeapSpec.HeapifyMakesHeap | src/main/java/algorithms/MaxHeap.java:29-31 | Heapified(s) is a heap for every s; buildHeap yields it for two elements or more (shorter arrays take the failure path). |
| HeapSpec.HeapifyPermutes | src/main/java/algorithms/MaxHeap.java:29-31 | buildHeap keeps every element, duplicates included. |
| HeapSpec.InsertKeepsHeap | src/main/java/algorithms/MaxHeap.java:41-46 | insert keeps the heap property. |
| HeapSpec.InsertAddsValue | src/main/java/algorithms/MaxHeap.java:41-46 | insert adds exactly one copy of the value to the multiset. |
| HeapSpec.ExtractKeepsHeap | src/main/java/algorithms/MaxHeap.java:48-55 | extractMax keeps the heap property. |
| HeapSpec.ExtractRemovesRoot | src/main/java/algorithms/MaxHeap.java:48-55 | extractMax removes exactly one copy of the root from the multiset. |
| HeapSpec.IncreaseKeepsHeap | src/main/java/algorithms/MaxHeap.java:57-63 | increaseKey with a value not below the current one keeps the heap property. |
| HeapSpec.IncreaseReplacesValue | src/main/java/algorithms/MaxHeap.java:57-63 | increaseKey replaces exactly one copy of the old value by the new one. |
| HeapSpec.RootDominates | src/main/java/algorithms/MaxHeap.java:36-39 | In a heap, every element is at most the root. |
| HeapSpec.RootIsMax | src/main/java/algorithms/MaxHeap.java:36-39 | The root of a heap is at least every element in it: what peek and extractMax return is the maximum. |
| HeapSpec.ExtractedBelowRoot | src/main/java/algorithms/MaxHeap.java:48-55 | Everything left after extractMax is at most the value it returned. |
| HeapSpec.Drained | src/test/java/algorithms/MaxHeapTest.java:18-38 | Repeated extractMax returns one value per element, starting with the root. DrainSorts and DrainPermutes state the rest. |
| HeapSpec.DrainPermutes | src/test/java/algorithms/MaxHeapTest.java:30-38 | Extracting until empty returns every element of the heap, duplicates included. |
| HeapSpec.PrependLargest | src/test/java/algorithms/MaxHeapTest.java:35-37 | A value at least every element of a non-increasing sequence can be put in front of it. |
| HeapSpec.DrainSorts | src/test/java/algorithms/MaxHeapTest.java:18-27 | Extracting until empty returns the elements in non-increasing order. |
| HeapSpec.UpStepCost | src/main/java/algorithms/MaxHeap.java:84-90 | One sift-up level: one comparison, a swap exactly when the element moves. The baseline counts two reads plus four accesses per swap (MaxHeap.java:87-88, 117-124); the optimized shift counts two accesses (MaxHeapOptimized.java:83-89). |
| HeapSpec.DownStepCost | src/main/java/algorithms/MaxHeap.java:96-109 | One sift-down level with a left child: a swap exactly when the element moves. The baseline counts two or three comparisons (MaxHeap.java:100, 102, 105) and two reads per compared pair; the optimized one counts one or two (MaxHeapOptimized.java:106, 109) and two accesses per shift. |
| HeapSpec.HoleAccesses | src/main/java/algorithms/MaxHeapOptimized.java:79-80 | The optimized sifts add two accesses, the read of the moving value and its final write (MaxHeapOptimized.java:93-94, 119-120); the baseline none. |
| HeapSpec.SiftUpLoopCost | src/main/java/algorithms/MaxHeap.java:83-92 | The sift-up loop from k makes at most k swaps, at least as many comparisons and at most one more; it compares nothing exactly when k is the root. |
| HeapSpec.SiftDownLoopCost | src/main/java/algorithms/MaxHeap.java:94-111 | The sift-down loop swaps at most once per level that has a left child and compares at least once on each such level. |
| HeapSpec.SiftUpCost | src/main/java/algorithms/MaxHeapOptimized.java:78-95 | A whole sift-up keeps the loop's bounds and adds the hole's two accesses in the optimized variant. |
| HeapSpec.SiftDownCost | src/main/java/algorithms/MaxHeapOptimized.java:97-121 | A whole sift-down keeps the loop's bounds and adds the hole's two accesses in the optimized variant. |
| HeapSpec.SiftDownLevels | src/main/java/algorithms/MaxHeap.java:95-97 | Counts the loop iterations that pass the leaf test: zero exactly when k has no child, and never more than the slots from k on. |
| HeapSpec.BuildCost | src/main/java/algorithms/MaxHeap.java:30 | buildHeap's sift-downs together never swap more often than they compare, and the optimized variant adds two accesses per sift-down. |
| HeapSpec.InsertCost | src/main/java/algorithms/MaxHeap.java:41-46 | insert makes at most |s| swaps, compares as in sift-up, and counts the write of the new element (MaxHeap.java:43, MaxHeapOptimized.java:43-44) besides the sift's accesses. |
| HeapSpec.ExtractCost | src/main/java/algorithms/MaxHeap.java:48-55 | extractMax swaps at most once more than it compares (the baseline's root swap) and counts at least the read of the root. |
| HeapSpec.ExtractHeadCost | src/main/java/algorithms/MaxHeap.java:50-51 | Before the sift-down, extractMax compares nothing. The baseline reads the root and swaps only when there are two elements or more (`swap` returns early for i == j); the optimized variant counts the read and the assignment (MaxHeapOptimized.java:51-54). |
| HeapSpec.SettleCost | src/main/java/algorithms/MaxHeap.java:53 | The guarded sift-down costs nothing when the heap became empty, and never swaps more often than it compares. |
| HeapSpec.IncreaseCost | src/main/java/algorithms/MaxHeap.java:59-62 | increaseKey counts the read of the current value and the write of the new one (MaxHeapOptimized.java:62-66), then a sift-up from the index with at most `index` swaps. |
| HeapSpec.FailedBuildCost | src/main/java/algorithms/MaxHeap.java:94-106 | Building from 0 or 1 elements swaps nothing. The optimized variant throws on its first, uncounted read (MaxHeapOptimized.java:98). The baseline counts two comparisons (MaxHeap.java:100, 102 or 105) and one read per element plus one before its read goes out of range. |
| HeapSpec.SiftUpReportsAlike | src/main/java/algorithms/MaxHeapOptimized.java:81-91 | The hole-based sift-up reports the same comparisons and swaps as the baseline sift-up, on every input. |
| HeapSpec.SiftDownComparisonGap | src/main/java/algorithms/MaxHeap.java:100 | The baseline sift-down reports one more comparison per visited level than the optimized one, and the same swaps. |
| HeapSpec.ExtractReportsOneMoreSwap | src/main/java/algorithms/MaxHeap.java:51 | On two elements or more, the baseline extractMax reports exactly one swap more than the optimized one. |
| HeapSpec.ExtractSwaps | src/main/java/algorithms/MaxHeap.java:51-53 | On two elements or more, the swaps extractMax reports are its sift-down's swaps, plus one for the baseline's root swap (on one element `swap(0, 0)` returns early and counts nothing). |
| Metrics.ReportedIsCharge | src/main/java/metrics/PerformanceTracker.java:20-27 | The field-wise report predicate holds exactly when the new counters are the old ones charged with the cost, and nothing else changed. |
| Metrics.ReportsCompose | src/main/java/metrics/PerformanceTracker.java:20-25 | Two reports in a row are one report of the summed work. |
| Metrics.Started | src/main/java/metrics/PerformanceTracker.java:29 | startTimer sets the start mark to the clock reading and changes no other field. |
| Metrics.Stopped | src/main/java/metrics/PerformanceTracker.java:30-35 | stopTimer always leaves the start mark at 0. It does nothing when the timer is not running; otherwise it adds the span since the start to the elapsed time. No other field changes. |
| Metrics.StopTwiceIsStopOnce | src/main/java/metrics/PerformanceTracker.java:30-35 | A second stop changes nothing. |
| Metrics.RestartDiscardsFirstSpan | src/main/java/metrics/PerformanceTracker.java:29 | A second start before a stop discards the first start mark, for every clock reading, including a second reading of 0 (which leaves the timer looking stopped). |
| Metrics.SpansAccumulate | src/main/java/metrics/PerformanceTracker.java:30-35 | Two start/stop cycles add both spans to the elapsed time when neither start reading is 0; a cycle started at reading 0 adds nothing, because of the `startNs != 0` check. |
| Metrics.PerformanceTracker.constructor | src/main/java/metrics/PerformanceTracker.java:3-9 | A new tracker has all six fields at 0. |
| Metrics.PerformanceTracker.Reset | src/main/java/metrics/PerformanceTracker.java:11-18 | reset sets all six fields to 0. |
| Metrics.PerformanceTracker.IncComparisons | src/main/java/metrics/PerformanceTracker.java:20 | Adds one comparison and leaves every other field. |
| Metrics.PerformanceTracker.IncComparisonsBy | src/main/java/metrics/PerformanceTracker.java:21 | Adds n comparisons and leaves every other field. |
| Metrics.PerformanceTracker.IncSwaps | src/main/java/metrics/PerformanceTracker.java:22 | Adds one swap and leaves every other field. |
| Metrics.PerformanceTracker.IncSwapsBy | src/main/java/metrics/PerformanceTracker.java:23 | Adds n swaps and leaves every other field. |
| Metrics.PerformanceTracker.IncArrayAccesses | src/main/java/metrics/PerformanceTracker.java:24 | Adds one access and leaves every other field. |
| Metrics.PerformanceTracker.IncArrayAccessesBy | src/main/java/metrics/PerformanceTracker.java:25 | Adds n accesses and leaves every other field. |
| Metrics.PerformanceTracker.IncAllocations | src/main/java/metrics/PerformanceTracker.java:26 | Adds one allocation and leaves every other field. |
| Metrics.PerformanceTracker.IncAllocationsBy | src/main/java/metrics/PerformanceTracker.java:27 | Adds n allocations and leaves every other field. |
| Metrics.PerformanceTracker.StartTimer | src/main/java/metrics/PerformanceTracker.java:29 | The new state is `Started` of the old one, with the clock reading given. |
| Metrics.PerformanceTracker.StopTimer | src/main/java/metrics/PerformanceTracker.java:30-35 | The new state is `Stopped` of the old one, with the clock reading given. |
| Metrics.PerformanceTracker.GetComparisons | src/main/java/metrics/PerformanceTracker.java:37 | Returns the comparisons counter. |
| Metrics.PerformanceTracker.GetSwaps | src/main/java/metrics/PerformanceTracker.java:38 | Returns the swaps counter. |
| Metrics.PerformanceTracker.GetArrayAccesses | src/main/java/metrics/PerformanceTracker.java:39 | Returns the array-accesses counter. |
| Metrics.PerformanceTracker.GetAllocations | src/main/java/metrics/PerformanceTracker.java:40 | Returns the allocations counter. |
| Metrics.PerformanceTracker.GetElapsedNs | src/main/java/metrics/PerformanceTracker.java:41 | Returns the elapsed time. |
| Metrics.PerformanceTracker.ToCsv | src/main/java/metrics/PerformanceTracker.java:47-56 | For an operation name without a comma, the line splits back into the name and the decimal n, elapsed time, comparisons, swaps and accesses: six columns, one fewer than the header. |
| Metrics.CsvHeader | src/main/java/metrics/PerformanceTracker.java:43-45 | The header splits into exactly the seven column names. |
| Metrics.Decimal | src/main/java/metrics/PerformanceTracker.java:48 | `%d`, in a locale whose digits are ASCII `0`-`9`, prints a non-empty string of digits, with a leading minus sign exactly for negative values, no leading zero, and `0` exactly for zero. |
| Metrics.DecimalRoundTrip | src/main/java/metrics/PerformanceTracker.java:48 | Parsing a printed number gives the number back. |
| Metrics.SplitJoin | src/main/java/metrics/PerformanceTracker.java:48 | Splitting comma-joined columns at the commas gives back the columns, when none holds a comma. |
| BaselineHeap.MaxHeap.WithCapacity | src/main/java/algorithms/MaxHeap.java:12-18 | Creates storage of max(1, capacity) zeroed slots and an empty valid heap, and reports that length as allocations. |
| BaselineHeap.MaxHeap.Seeded | src/main/java/algorithms/MaxHeap.java:20-25 | Creates a fresh copy of the data, all of it live, and reports its length as allocations. |
| BaselineHeap.MaxHeap.New | src/main/java/algorithms/MaxHeap.java:12-18 | A negative capacity throws IllegalArgumentException and counts nothing. Otherwise the result is an empty valid heap over fresh storage of max(1, capacity) slots, with that length counted. |
| BaselineHeap.MaxHeap.FromArray | src/main/java/algorithms/MaxHeap.java:20-31 | Null data throws IllegalArgumentException. With fewer than two elements the build throws IndexOutOfBounds after counting its partial work. Otherwise the result is a valid heap in fresh storage, with contents `Heapified(data)` and build work `BuildCost`. |
| BaselineHeap.MaxHeap.BuildHeap | src/main/java/algorithms/MaxHeap.java:29-31 | Below two elements the build fails with the exact partial count and leaves the array. Otherwise the array becomes `Heapified` of the old one, which is a heap, and `BuildCost` is reported. |
| BaselineHeap.MaxHeap.SiftDownEach | src/main/java/algorithms/MaxHeap.java:30 | The descending loop leaves `Built(old, i0)` and reports `BuildCost`. |
| BaselineHeap.MaxHeap.Size | src/main/java/algorithms/MaxHeap.java:33 | Returns the number of elements. |
| BaselineHeap.MaxHeap.IsEmpty | src/main/java/algorithms/MaxHeap.java:34 | Returns true exactly when there are no elements. |
| BaselineHeap.MaxHeap.Peek | src/main/java/algorithms/MaxHeap.java:36-39 | Throws NoSuchElementException exactly when empty. Otherwise it returns an element that is at least every element. |
| BaselineHeap.MaxHeap.Insert | src/main/java/algorithms/MaxHeap.java:41-46 | Keeps the heap valid and grows the size by one. The elements become `Inserted(old, value)`. The storage follows ensureCapacity's growth with the old prefix kept. Growth is counted as allocations, then the write and the sift-up's `InsertCost`. |
| BaselineHeap.MaxHeap.Append | src/main/java/algorithms/MaxHeap.java:42-44 | Ensures capacity, writes the value after the last element (one access) and grows the size. The old elements are kept in front. |
| BaselineHeap.MaxHeap.ExtractMax | src/main/java/algorithms/MaxHeap.java:48-55 | An empty heap throws NoSuchElementException and counts nothing. Otherwise it returns the old root, leaves `Extracted(old)` as a valid heap in the same storage with the old root just past the end, and reports `ExtractCost`. |
| BaselineHeap.MaxHeap.TakeRoot | src/main/java/algorithms/MaxHeap.java:50-52 | Reads the root, swaps the last element into its place and shrinks: the live part becomes `Shrunk(old)`. Reports one read, plus a swap when there are two elements or more. |
| BaselineHeap.MaxHeap.Settle | src/main/java/algorithms/MaxHeap.java:53 | Sifts down from the root unless the heap is empty: the live part becomes `Settled(old)`, and `SettleCost` is reported. |
| BaselineHeap.MaxHeap.IncreaseKey | src/main/java/algorithms/MaxHeap.java:57-63 | An index outside [0, size) throws IndexOutOfBounds and counts nothing. A smaller value throws IllegalArgument after one read and leaves the heap. Otherwise the elements become `Increased(old, i, v)`, the heap stays valid, and `IncreaseCost` is reported. |
| BaselineHeap.MaxHeap.IncreaseKeyByValue | src/main/java/algorithms/MaxHeap.java:65-73 | If the old value is absent, it returns false after one read per element and changes nothing. If found at the lowest index k with a smaller new value, the exception propagates. Otherwise it returns true with `Increased(old, k, v)` and the scan's k + 1 reads added to `IncreaseCost`. |
| BaselineHeap.MaxHeap.EnsureCapacity | src/main/java/algorithms/MaxHeap.java:75-81 | The storage length becomes `GrownLength`: the same array while it fits, otherwise a fresh copy with the prefix kept. The difference in length is counted as allocations. |
| BaselineHeap.MaxHeap.SiftUp | src/main/java/algorithms/MaxHeap.java:83-92 | The live part becomes `SiftedUp(old, idx)`, the slots past it are untouched, and `SiftUpCost` is reported. |
| BaselineHeap.MaxHeap.RiseStep | src/main/java/algorithms/MaxHeap.java:85-90 | One comparison and two reads. When the parent is strictly smaller it swaps with it, and reports whether it moved. |
| BaselineHeap.MaxHeap.SiftDown | src/main/java/algorithms/MaxHeap.java:94-111 | The live part becomes `SiftedDown(old, idx)`, the slots past it are untouched, and `SiftDownCost` is reported. |
| BaselineHeap.MaxHeap.SinkStep | src/main/java/algorithms/MaxHeap.java:96-109 | Picks `LargerChild` and swaps when it is strictly greater. Reports two comparisons, or three with a right child, and the reads and the swap. |
| BaselineHeap.MaxHeap.Swap | src/main/java/algorithms/MaxHeap.java:117-124 | Exchanges two slots. It counts nothing for equal indices, and one swap and four accesses otherwise. |
| BaselineHeap.MaxHeap.CountComparison | src/main/java/algorithms/MaxHeap.java:86 | The guarded `incComparisons`: one comparison when a tracker is attached. |
| BaselineHeap.MaxHeap.Read | src/main/java/algorithms/MaxHeap.java:126-129 | Returns the slot and counts one access. |
| BaselineHeap.MaxHeap.Write | src/main/java/algorithms/MaxHeap.java:131-134 | Stores into the slot only, and counts one access. |
| OptimizedHeap.MaxHeapOptimized.WithCapacity | src/main/java/algorithms/MaxHeapOptimized.java:12-18 | Creates storage of max(1, capacity) zeroed slots and an empty valid heap, and reports that length as allocations. |
| OptimizedHeap.MaxHeapOptimized.Seeded | src/main/java/algorithms/MaxHeapOptimized.java:20-25 | Creates a fresh copy of the data, all of it live, and reports its length as allocations. |
| OptimizedHeap.MaxHeapOptimized.New | src/main/java/algorithms/MaxHeapOptimized.java:12-18 | A negative capacity throws IllegalArgumentException and counts nothing. Otherwise the result is an empty valid heap of max(1, capacity) slots, with that length counted. |
| OptimizedHeap.MaxHeapOptimized.FromArray | src/main/java/algorithms/MaxHeapOptimized.java:20-31 | Null data throws IllegalArgumentException. Fewer than two elements throw IndexOutOfBounds with nothing counted beyond the copy. Otherwise the result is a valid heap with contents `Heapified(data)` and build work `BuildCost`. |
| OptimizedHeap.MaxHeapOptimized.BuildHeap | src/main/java/algorithms/MaxHeapOptimized.java:29-31 | Below two elements the build fails before counting anything. Otherwise the array becomes `Heapified` of the old one, which is a heap, and `BuildCost` is reported. |
| OptimizedHeap.MaxHeapOptimized.SiftDownEach | src/main/java/algorithms/MaxHeapOptimized.java:30 | The descending loop leaves `Built(old, i0)` and reports `BuildCost`. |
| OptimizedHeap.MaxHeapOptimized.Size | src/main/java/algorithms/MaxHeapOptimized.java:33 | Returns the number of elements. |
| OptimizedHeap.MaxHeapOptimized.IsEmpty | src/main/java/algorithms/MaxHeapOptimized.java:34 | Returns true exactly when there are no elements. |
| OptimizedHeap.MaxHeapOptimized.Peek | src/main/java/algorithms/MaxHeapOptimized.java:36-39 | Throws NoSuchElementException exactly when empty. Otherwise it returns an element that is at least every element. |
| OptimizedHeap.MaxHeapOptimized.Insert | src/main/java/algorithms/MaxHeapOptimized.java:41-47 | Keeps the heap valid and grows the size by one. The elements become `Inserted(old, value)`, the same as the baseline. Growth is counted as allocations, then `InsertCost`. |
| OptimizedHeap.MaxHeapOptimized.Append | src/main/java/algorithms/MaxHeapOptimized.java:42-45 | Ensures capacity, stores the value after the last element (one access) and grows the size. |
| OptimizedHeap.MaxHeapOptimized.ExtractMax | src/main/java/algorithms/MaxHeapOptimized.java:49-58 | An empty heap throws and counts nothing. Otherwise it returns the old root and leaves `Extracted(old)` as a valid heap. The slots past the new end keep their old values. It reports `ExtractCost`, with no swap for the root. |
| OptimizedHeap.MaxHeapOptimized.TakeRoot | src/main/java/algorithms/MaxHeapOptimized.java:51-55 | Reads the root and copies the last element over it (two accesses, no swap), then shrinks: the live part becomes `Shrunk(old)`. |
| OptimizedHeap.MaxHeapOptimized.Settle | src/main/java/algorithms/MaxHeapOptimized.java:56 | Sifts down from the root unless the heap is empty: the live part becomes `Settled(old)`, and `SettleCost` is reported. |
| OptimizedHeap.MaxHeapOptimized.IncreaseKey | src/main/java/algorithms/MaxHeapOptimized.java:60-68 | Has the baseline's error cases and error counts. On success the elements become `Increased(old, i, v)`, the heap stays valid, and `IncreaseCost(Optimized, …)` is reported, which adds the hole's two accesses to the baseline's count. |
| OptimizedHeap.MaxHeapOptimized.EnsureCapacity | src/main/java/algorithms/MaxHeapOptimized.java:70-76 | The storage length becomes `GrownLength`: the same array while it fits, otherwise a fresh copy with the prefix kept. The difference is counted as allocations. |
| OptimizedHeap.MaxHeapOptimized.SiftUp | src/main/java/algorithms/MaxHeapOptimized.java:78-95 | The hole-based sift leaves exactly `SiftedUp(old, idx)`, the swap-based result, and reports `SiftUpCost`: one access each way plus each step's cost. |
| OptimizedHeap.MaxHeapOptimized.RiseStep | src/main/java/algorithms/MaxHeapOptimized.java:82-91 | With the hole at idx: one comparison. When the parent is smaller than the held value, it shifts into the hole, which then corresponds to a swap in the specification. |
| OptimizedHeap.MaxHeapOptimized.SiftDown | src/main/java/algorithms/MaxHeapOptimized.java:97-121 | The hole-based sift leaves exactly `SiftedDown(old, idx)`, the swap-based result, and reports `SiftDownCost`. |
| OptimizedHeap.MaxHeapOptimized.SinkStep | src/main/java/algorithms/MaxHeapOptimized.java:101-117 | With the hole at idx: picks `LargerChild` of the array with the value put back, and shifts it up when it is strictly greater than the value. Reports one comparison, or two with a right child. |
| OptimizedHeap.MaxHeapOptimized.FillHole | src/main/java/algorithms/MaxHeapOptimized.java:93-94 | The held value is stored in the hole, with one counted access. |
| CrossCheck.NewBoth | src/main/java/algorithms/MaxHeapOptimized.java:12-18 | The two capacity constructors with the same capacity both throw the same exception, or both give empty heaps with equal contents in separate storage. |
| CrossCheck.FromArrayBoth | src/main/java/algorithms/MaxHeapOptimized.java:20-31 | Built from the same array, both variants fail with the same exception or yield heaps with equal contents. |
| CrossCheck.InsertBoth | src/main/java/algorithms/MaxHeapOptimized.java:41-47 | insert keeps equal heaps equal. |
| CrossCheck.ExtractMaxBoth | src/main/java/algorithms/MaxHeapOptimized.java:49-58 | extractMax returns the same value or exception from equal heaps and keeps them equal. |
| CrossCheck.IncreaseKeyBoth | src/main/java/algorithms/MaxHeapOptimized.java:60-68 | increaseKey has the same outcome on equal heaps and keeps them equal. |

## Left out

- `src/main/java/cli/BenchmarkRunner.java` is not part of this model. It covers file output, console output and random input generation.
- `System.nanoTime()` is a foreign call. `StartTimer` and `StopTimer` take the clock reading as a parameter `now`.
- The tracker's `long` fields are unbounded integers, so 64-bit wrap-around is not modelled.
- Heaps of more than `MAX_SIZE` (2^30 - 1) elements, and an insert into a heap of `MAX_SIZE` elements, are not modelled, so every index computation stays within an int.
  - `Valid()` bounds the size, and `Insert` requires room below that bound.
  - `left(i)` for larger i and the overflow of `oldLen * 2` in `ensureCapacity` are therefore not modelled.
  - The one wrap that matters below the bound, `parent` of 0 and -1, is modelled.
- `MaxHeap.right()` (MaxHeap.java line 115) is never called, so it has no counterpart.
- `Arrays.copyOf` is modelled by what it returns (`CopyOf`), not by how it copies.
- The array constructors' `data` is a nullable `array?<int>`.
  - Java constructors that throw become the static methods `New` and `FromArray`, which return `Result`.
  - The non-final `metrics` field of `MaxHeap` is never reassigned, and is a `const` here.
- The claim that allocations counted since construction equal the storage length is not a class invariant here. A tracker may be shared between heaps or reset. What is proved:
  - each constructor reports the initial length;
  - each `Insert` and `EnsureCapacity` reports exactly the growth in length.
- Multiset preservation is stated as lemmas about the specification functions, not in the methods' `ensures`. The methods are proved equal to those functions.
  - The lemmas are `InsertAddsValue`, `ExtractRemovesRoot`, `IncreaseReplacesValue` and `HeapifyPermutes`.
- BaselineHeap.MaxHeap.ExtractMax: states that the result is the old root. That this root is the maximum is the lemma `RootIsMax`, not an `ensures` of the method. The same holds for `OptimizedHeap.MaxHeapOptimized.ExtractMax`.
- Metrics.PerformanceTracker.ToCsv: the columns are stated only for operation names without a comma. Java does not escape commas, so such a name splits into more columns.
- Metrics.PerformanceTracker.ToCsv: the operation is a non-null string. Java's `String.format` prints a `null` operation as `null`, and that case is not modelled.
- Metrics.PerformanceTracker.ToCsv: the numbers are rendered with `Decimal`, that is, with ASCII digits. `String.format` uses the default locale, whose digits may differ. Such locales are not modelled.
- Metrics.Decimal: prints the ASCII digits `0`-`9` and a `-` sign. This is `%d` only in a locale whose zero digit is `0`. Locale-specific digits and minus signs are not modelled.
- The JUnit tests in `src/test/java/algorithms/MaxHeapTest.java` are not modelled as code. Their scenarios are the lemmas `DrainSorts`, `DrainPermutes` and `RootIsMax`, and the error cases of `ExtractMax` and `IncreaseKey`.
- There is no concurrency in the source, and none is modelled.
