/** The optimized array-backed max-heap (algorithms.MaxHeapOptimized). It
    works on the array directly and reports its work by hand: a sift reads
    the moving value once, shifts elements into the hole it leaves (two
    accesses and one "swap" per shift), and writes the value once at the
    end. Each hole-based sift is proved equal to the same swap-based
    specification as the baseline: while the value is held aside, the array
    with the value put back into the hole is the swap-based sift's state. */
module OptimizedHeap {
  import opened Outcomes
  import opened JavaSemantics
  import opened Metrics
  import opened HeapSpec

  class MaxHeapOptimized {
    var heap: array<int>
    var size: nat
    const metrics: PerformanceTracker?

    /** The heap's elements: the first `size` slots of the storage. */
    function Elements(): seq<int>
      reads this, heap
      requires size <= heap.Length
    {
      heap[..size]
    }

    /** The class invariant: the live prefix fits the storage and is a
        max-heap; the size stays small enough that child indices never wrap. */
    ghost predicate Valid()
      reads this, heap
    {
      size <= heap.Length <= INT_MAX && size <= MAX_SIZE && IsHeap(heap[..size])
    }

    /** The body of MaxHeapOptimized(int, PerformanceTracker) once the
        capacity is known not to be negative. */
    constructor WithCapacity(initialCapacity: nat, tracker: PerformanceTracker?)
      requires initialCapacity <= INT_MAX
      modifies tracker
      ensures Valid() && fresh(heap) && metrics == tracker && Elements() == []
      ensures heap.Length == if initialCapacity < 1 then 1 else initialCapacity
      ensures forall i :: 0 <= i < heap.Length ==> heap[i] == 0
      ensures tracker != null ==> tracker.Snapshot() == old(tracker.Snapshot()).Allocate(heap.Length)
    {
      metrics := tracker;
      heap := new int[if initialCapacity < 1 then 1 else initialCapacity](_ => 0);
      size := 0;
      new;
      if metrics != null { metrics.IncAllocationsBy(heap.Length); }
    }

    /** The body of MaxHeapOptimized(int[], PerformanceTracker) up to
        buildHeap: a private copy of the data, all of it live. */
    constructor Seeded(data: array<int>, tracker: PerformanceTracker?)
      requires data.Length <= MAX_SIZE
      modifies tracker
      ensures fresh(heap) && metrics == tracker
      ensures heap[..] == data[..] && size == heap.Length
      ensures tracker != null ==> tracker.Snapshot() == old(tracker.Snapshot()).Allocate(data.Length)
    {
      metrics := tracker;
      var copy := CopyOf(data, data.Length);
      heap := copy;
      size := data.Length;
      new;
      if metrics != null { metrics.IncAllocationsBy(heap.Length); }
    }

    /** new MaxHeapOptimized(initialCapacity, metrics): a negative capacity
        throws IllegalArgumentException before anything is counted. */
    static method New(initialCapacity: int, tracker: PerformanceTracker?) returns (r: Result<MaxHeapOptimized>)
      requires IsInt(initialCapacity)
      modifies tracker
      ensures initialCapacity < 0 ==> r == Err(IllegalArgument)
      ensures initialCapacity < 0 && tracker != null ==> tracker.Snapshot() == old(tracker.Snapshot())
      ensures initialCapacity >= 0 ==>
                r.Ok? && fresh(r.value) && fresh(r.value.heap) && r.value.Valid()
                && r.value.metrics == tracker && r.value.Elements() == []
                && r.value.heap.Length == (if initialCapacity < 1 then 1 else initialCapacity)
      ensures initialCapacity >= 0 && tracker != null ==>
                tracker.Snapshot() == old(tracker.Snapshot()).Allocate(r.value.heap.Length)
    {
      if initialCapacity < 0 {
        return Err(IllegalArgument);
      }
      var h := new MaxHeapOptimized.WithCapacity(initialCapacity, tracker);
      return Ok(h);
    }

    /** new MaxHeapOptimized(data, metrics). A null array throws
        IllegalArgumentException. Otherwise the copy is counted as an
        allocation and heapified; with fewer than two elements the first
        sift-down reads out of range before it counts anything, and the
        constructor throws. */
    static method FromArray(data: array?<int>, tracker: PerformanceTracker?) returns (r: Result<MaxHeapOptimized>)
      requires data != null ==> data.Length <= MAX_SIZE
      modifies tracker
      ensures data == null ==> r == Err(IllegalArgument)
      ensures data == null && tracker != null ==> tracker.Snapshot() == old(tracker.Snapshot())
      ensures data != null && data.Length < 2 ==> r == Err(IndexOutOfBounds)
      ensures data != null && data.Length < 2 && tracker != null ==>
                Reported(old(tracker.Snapshot()).Allocate(data.Length), tracker.Snapshot(), FailedBuildCost(Optimized, data.Length))
      ensures data != null && data.Length >= 2 ==>
                r.Ok? && fresh(r.value) && fresh(r.value.heap) && r.value.Valid()
                && r.value.metrics == tracker && r.value.heap.Length == data.Length
                && r.value.Elements() == Heapified(data[..])
      ensures data != null && data.Length >= 2 && tracker != null ==>
                Reported(old(tracker.Snapshot()).Allocate(data.Length), tracker.Snapshot(), BuildCost(Optimized, data[..], LastParent(data.Length)))
    {
      if data == null {
        return Err(IllegalArgument);
      }
      var h := new MaxHeapOptimized.Seeded(data, tracker);
      var outcome := h.BuildHeap();
      if outcome.Failed? {
        return Err(outcome.error);
      }
      assert h.Elements() == h.heap[..];
      return Ok(h);
    }

    /** buildHeap: sift down from parent(size - 1) to 0. For 0 or 1
        elements parent() yields Integer.MAX_VALUE, and the sift-down's
        first statement, the read of heap[Integer.MAX_VALUE], is out of
        range. */
    method BuildHeap() returns (outcome: Outcome)
      requires size == heap.Length <= MAX_SIZE
      modifies heap, metrics
      ensures size < 2 ==> outcome == Failed(IndexOutOfBounds) && heap[..] == old(heap[..])
      ensures size < 2 && metrics != null ==>
                Reported(old(metrics.Snapshot()), metrics.Snapshot(), FailedBuildCost(Optimized, size))
      ensures size >= 2 ==> outcome == Done && heap[..] == Heapified(old(heap[..])) && IsHeap(heap[..])
      ensures size >= 2 && metrics != null ==>
                Reported(old(metrics.Snapshot()), metrics.Snapshot(), BuildCost(Optimized, old(heap[..]), LastParent(size)))
    {
      var i := Parent(size - 1);
      if i >= size {
        return Failed(IndexOutOfBounds);
      }
      assert i == LastParent(size);
      SiftDownEach(i);
      HeapifyMakesHeap(old(heap[..]));
      return Done;
    }

    /** The loop of buildHeap: sift down every index from i0 back to the root. */
    method SiftDownEach(i0: int)
      requires 0 <= i0 < size == heap.Length <= MAX_SIZE
      modifies heap, metrics
      ensures heap[..] == Built(old(heap[..]), i0)
      ensures metrics != null ==> Reported(old(metrics.Snapshot()), metrics.Snapshot(), BuildCost(Optimized, old(heap[..]), i0))
    {
      assert heap[..size] == heap[..];
      // what the tracker reads once the whole loop is reported
      ghost var goal := if metrics != null then metrics.Snapshot().Charge(BuildCost(Optimized, heap[..], i0)) else Zero;
      var i := i0;
      while i >= 0
        invariant -1 <= i < size
        invariant Built(heap[..size], i) == Built(old(heap[..]), i0)
        invariant metrics != null ==> Reported(metrics.Snapshot(), goal, BuildCost(Optimized, heap[..size], i))
      {
        SiftDown(i);
        i := i - 1;
      }
      assert heap[..size] == heap[..];
    }

    function Size(): (n: int)
      reads this, heap
      requires size <= heap.Length
      ensures n == |Elements()|
    {
      size
    }

    function IsEmpty(): (b: bool)
      reads this, heap
      requires size <= heap.Length
      ensures b <==> Elements() == []
    {
      size == 0
    }

    /** peek: the root, which is the largest element; an empty heap throws
        NoSuchElementException. Nothing is counted. */
    function Peek(): (r: Result<int>)
      reads this, heap
      requires Valid()
      ensures r == Err(NoSuchElement) <==> Elements() == []
      ensures r.Ok? ==> r.value in Elements() && forall x :: x in Elements() ==> x <= r.value
    {
      if size == 0 then Err(NoSuchElement)
      else
        RootIsMax(heap[..size]);
        Ok(heap[0])
    }

    /** What insert leaves of the storage: the length ensureCapacity(size + 1)
        picks, the same array while there was room, a fresh copy otherwise. */
    twostate predicate StorageGrown(oldSize: int)
      reads this
    {
      heap.Length == GrownLength(old(heap.Length), oldSize + 1)
      && (oldSize < old(heap.Length) ==> heap == old(heap))
      && (oldSize == old(heap.Length) ==> fresh(heap))
    }

    /** insert: grow the storage if it is full, store the value after the
        last element (one access), and sift it up. */
    method Insert(value: int)
      requires Valid() && size < MAX_SIZE
      modifies this, heap, metrics
      ensures Valid() && size == old(size) + 1
      ensures Elements() == Inserted(old(Elements()), value)
      ensures StorageGrown(old(size))
      ensures heap[size..] == CopiedOf(old(heap[..]), heap.Length)[size..]
      ensures metrics != null ==>
                Reported(old(metrics.Snapshot()).Allocate(heap.Length - old(heap.Length)), metrics.Snapshot(),
                         InsertCost(Optimized, old(Elements()), value))
    {
      ghost var s := heap[..size];
      Append(value);
      label appended:
      SiftUp(size - 1);
      assert heap[size..] == old@appended(heap[size..]);
      if metrics != null {
        ReportsCompose(old(metrics.Snapshot()).Allocate(heap.Length - old(heap.Length)), old@appended(metrics.Snapshot()), metrics.Snapshot(),
                       Cost(0, 0, 1), SiftUpCost(Optimized, s + [value], |s|));
      }
      InsertKeepsHeap(s, value);
    }

    /** The first steps of insert: make room for one more element, store the
        value just past the end, and count it in. */
    method Append(value: int)
      requires size <= heap.Length <= INT_MAX && size < MAX_SIZE
      modifies this, heap, metrics
      ensures size == old(size) + 1 && size <= heap.Length <= INT_MAX
      ensures heap[..size] == old(heap[..size]) + [value]
      ensures StorageGrown(old(size))
      ensures heap[size..] == CopiedOf(old(heap[..]), heap.Length)[size..]
      ensures metrics != null ==>
                Reported(old(metrics.Snapshot()).Allocate(heap.Length - old(heap.Length)), metrics.Snapshot(), Cost(0, 0, 1))
    {
      EnsureCapacity(size + 1);
      ghost var grown := heap[..];
      assert heap[..size] == old(heap[..size]);
      heap[size] := value;
      if metrics != null { metrics.IncArrayAccesses(); }
      assert heap[size + 1..] == grown[size + 1..];
      size := size + 1;
      assert heap[..size] == old(heap[..size]) + [value];
    }

    /** extractMax: read the root, copy the last element over it (two
        accesses), shrink, and sift the new root down. Unlike the baseline,
        no swap is counted and the slot just past the new end keeps the old
        last element. */
    method ExtractMax() returns (r: Result<int>)
      requires Valid()
      modifies this, heap, metrics
      ensures Valid() && heap == old(heap)
      ensures old(size) == 0 ==> r == Err(NoSuchElement) && size == 0 && heap[..] == old(heap[..])
      ensures old(size) == 0 && metrics != null ==> metrics.Snapshot() == old(metrics.Snapshot())
      ensures old(size) > 0 ==>
                r == Ok(old(heap[0])) && size == old(size) - 1
                && Elements() == Extracted(old(Elements()))
                && heap[size..] == old(heap[..])[size..]
      ensures old(size) > 0 && metrics != null ==>
                Reported(old(metrics.Snapshot()), metrics.Snapshot(), ExtractCost(Optimized, old(Elements())))
    {
      if size == 0 {
        return Err(NoSuchElement);
      }
      ghost var s := heap[..size];
      var max := TakeRoot();
      ghost var tail := heap[size..];
      ghost var m := if metrics != null then metrics.Snapshot() else Zero;
      Settle();
      if metrics != null {
        ReportsCompose(old(metrics.Snapshot()), m, metrics.Snapshot(), ExtractHeadCost(Optimized, s), SettleCost(Optimized, Shrunk(s)));
      }
      assert heap[size..] == tail;
      ExtractKeepsHeap(s);
      return Ok(max);
    }

    /** The first steps of extractMax on a non-empty heap: read the root,
        copy the last element over it, and shrink by one. */
    method TakeRoot() returns (max: int)
      requires 0 < size <= heap.Length
      modifies this, heap, metrics
      ensures heap == old(heap) && size == old(size) - 1 && max == old(heap[0])
      ensures heap[..size] == Shrunk(old(heap[..size]))
      ensures heap[size..] == old(heap[..])[size..]
      ensures metrics != null ==> Reported(old(metrics.Snapshot()), metrics.Snapshot(), ExtractHeadCost(Optimized, old(heap[..size])))
    {
      max := heap[0];
      if metrics != null { metrics.IncArrayAccesses(); }
      heap[0] := heap[size - 1];
      if metrics != null { metrics.IncArrayAccesses(); }
      size := size - 1;
      assert heap[..size] == Shrunk(old(heap[..size]));
    }

    /** The end of extractMax: sift the new root down unless the heap is
        now empty. */
    method Settle()
      requires size <= heap.Length && size <= MAX_SIZE
      modifies heap, metrics
      ensures heap[..size] == Settled(old(heap[..size]))
      ensures heap[size..] == old(heap[size..])
      ensures metrics != null ==>
                Reported(old(metrics.Snapshot()), metrics.Snapshot(), SettleCost(Optimized, old(heap[..size])))
    {
      if size > 0 {
        SiftDown(0);
      }
    }

    /** increaseKey: an index outside [0, size) throws
        IndexOutOfBoundsException before anything is counted; a value below
        the current one throws IllegalArgumentException after its read;
        otherwise the value is stored and sifted up. */
    method IncreaseKey(index: int, newValue: int) returns (outcome: Outcome)
      requires Valid()
      modifies heap, metrics
      ensures Valid()
      ensures !(0 <= index < size) ==> outcome == Failed(IndexOutOfBounds) && heap[..] == old(heap[..])
      ensures !(0 <= index < size) && metrics != null ==> metrics.Snapshot() == old(metrics.Snapshot())
      ensures 0 <= index < size && newValue < old(heap[index]) ==>
                outcome == Failed(IllegalArgument) && heap[..] == old(heap[..])
                && (metrics != null ==> Reported(old(metrics.Snapshot()), metrics.Snapshot(), Cost(0, 0, 1)))
      ensures 0 <= index < size && newValue >= old(heap[index]) ==>
                outcome == Done
                && Elements() == Increased(old(Elements()), index, newValue)
                && heap[size..] == old(heap[size..])
                && (metrics != null ==>
                      Reported(old(metrics.Snapshot()), metrics.Snapshot(), IncreaseCost(Optimized, old(Elements()), index, newValue)))
    {
      if index < 0 || index >= size {
        return Failed(IndexOutOfBounds);
      }
      var cur := heap[index];
      if metrics != null { metrics.IncArrayAccesses(); }
      if newValue < cur {
        return Failed(IllegalArgument);
      }
      heap[index] := newValue;
      if metrics != null { metrics.IncArrayAccesses(); }
      assert heap[..size] == old(heap[..size])[index := newValue];
      SiftUp(index);
      IncreaseKeepsHeap(old(heap[..size]), index, newValue);
      return Done;
    }

    /** ensureCapacity: keep the storage while minCapacity fits, otherwise
        copy it into max(2 * length, minCapacity) slots and count the new
        slots as allocations. */
    method EnsureCapacity(minCapacity: int)
      requires IsInt(minCapacity) && heap.Length <= INT_MAX
      requires minCapacity > heap.Length ==> IsInt(heap.Length + heap.Length)
      modifies this`heap, metrics
      ensures heap.Length == GrownLength(old(heap.Length), minCapacity)
      ensures minCapacity <= old(heap.Length) ==> heap == old(heap)
      ensures minCapacity > old(heap.Length) ==> fresh(heap)
      ensures heap[..] == CopiedOf(old(heap[..]), heap.Length)
      ensures metrics != null ==>
                metrics.Snapshot() == old(metrics.Snapshot()).Allocate(heap.Length - old(heap.Length))
    {
      if minCapacity <= heap.Length {
        assert heap[..] == CopiedOf(heap[..], heap.Length);
        return;
      }
      var oldLen := heap.Length;
      var newLen := if oldLen + oldLen >= minCapacity then oldLen + oldLen else minCapacity;
      heap := CopyOf(heap, newLen);
      if metrics != null { metrics.IncAllocationsBy(newLen - oldLen); }
    }

    /** siftUpOptimized: hold the value aside and move smaller parents down
        into the hole until the value fits, then store it there. It leaves
        exactly what the swap-based siftUp leaves. */
    method SiftUp(idx0: int)
      requires 0 <= idx0 < size <= heap.Length && size <= MAX_SIZE
      modifies heap, metrics
      ensures heap[..size] == SiftedUp(old(heap[..size]), idx0)
      ensures heap[size..] == old(heap[size..])
      ensures metrics != null ==>
                Reported(old(metrics.Snapshot()), metrics.Snapshot(), SiftUpCost(Optimized, old(heap[..size]), idx0))
    {
      var idx := idx0;
      var value := heap[idx];
      if metrics != null { metrics.IncArrayAccesses(); }
      // what the tracker reads once the loop is reported
      ghost var goal := if metrics != null then metrics.Snapshot().Charge(SiftUpLoopCost(Optimized, heap[..size], idx0)) else Zero;
      assert heap[..size][idx := value] == heap[..size];
      while idx > 0
        invariant 0 <= idx < size
        invariant SiftedUp(heap[..size][idx := value], idx) == SiftedUp(old(heap[..size]), idx0)
        invariant heap[size..] == old(heap[size..])
        invariant metrics != null ==> Reported(metrics.Snapshot(), goal, SiftUpLoopCost(Optimized, heap[..size][idx := value], idx))
      {
        var moved, p := RiseStep(idx, value);
        if !moved {
          break;
        }
        idx := p;
      }
      FillHole(idx, value);
    }

    /** The last step of both sifts: the value held aside is stored in the
        hole, one counted access. */
    method FillHole(idx: int, value: int)
      requires 0 <= idx < size <= heap.Length
      modifies heap, metrics
      ensures heap[..size] == old(heap[..size])[idx := value]
      ensures heap[size..] == old(heap[size..])
      ensures metrics != null ==> Reported(old(metrics.Snapshot()), metrics.Snapshot(), Cost(0, 0, 1))
    {
      heap[idx] := value;
      if metrics != null { metrics.IncArrayAccesses(); }
      assert heap[..size] == old(heap[..size])[idx := value];
    }

    /** One pass of siftUpOptimized's loop at idx > 0, with the hole at idx
        and the value held aside: one comparison, and when the parent is
        strictly smaller it moves into the hole, which moves up to the parent. */
    method RiseStep(idx: int, value: int) returns (moved: bool, p: int)
      requires 0 < idx < size <= heap.Length && size <= MAX_SIZE
      modifies heap, metrics
      ensures p == (idx - 1) / 2
      ensures moved <==> old(heap[p]) < value
      ensures moved ==> heap[..size][p := value] == HeapSpec.Swap(old(heap[..size])[idx := value], p, idx)
      ensures !moved ==> heap[..size] == old(heap[..size])
      ensures heap[size..] == old(heap[size..])
      ensures metrics != null ==> Reported(old(metrics.Snapshot()), metrics.Snapshot(), UpStepCost(Optimized, moved))
    {
      p := Parent(idx);
      if metrics != null { metrics.IncComparisons(); }
      moved := heap[p] < value;
      if moved {
        heap[idx] := heap[p];
        if metrics != null {
          metrics.IncArrayAccessesBy(2);
          metrics.IncSwaps();
        }
      }
    }

    /** siftDownOptimized: hold the value aside and move the larger child
        (the right one only when strictly greater) up into the hole while it
        is strictly greater than the value, then store the value there. It
        leaves exactly what the swap-based siftDown leaves. */
    method SiftDown(idx0: int)
      requires 0 <= idx0 < size <= heap.Length && size <= MAX_SIZE
      modifies heap, metrics
      ensures heap[..size] == SiftedDown(old(heap[..size]), idx0)
      ensures heap[size..] == old(heap[size..])
      ensures metrics != null ==>
                Reported(old(metrics.Snapshot()), metrics.Snapshot(), SiftDownCost(Optimized, old(heap[..size]), idx0))
    {
      var idx := idx0;
      var value := heap[idx];
      if metrics != null { metrics.IncArrayAccesses(); }
      // what the tracker reads once the loop is reported
      ghost var goal := if metrics != null then metrics.Snapshot().Charge(SiftDownLoopCost(Optimized, heap[..size], idx0)) else Zero;
      assert heap[..size][idx := value] == heap[..size];
      while true
        invariant 0 <= idx < size
        invariant SiftedDown(heap[..size][idx := value], idx) == SiftedDown(old(heap[..size]), idx0)
        invariant heap[size..] == old(heap[size..])
        invariant metrics != null ==> Reported(metrics.Snapshot(), goal, SiftDownLoopCost(Optimized, heap[..size][idx := value], idx))
        decreases size - idx
      {
        var left := Left(idx);
        if left >= size {
          break;
        }
        var moved, largest := SinkStep(idx, value);
        if !moved {
          break;
        }
        idx := largest;
      }
      FillHole(idx, value);
    }

    /** One pass of siftDownOptimized's loop at an idx whose left child
        exists, with the hole at idx and the value held aside: the
        comparison of the two children when the right one exists, the
        comparison with the value, and when the larger child is strictly
        greater it moves into the hole, which moves down to that child. */
    method SinkStep(idx: int, value: int) returns (moved: bool, largest: int)
      requires 0 <= idx && 2 * idx + 1 < size <= heap.Length && size <= MAX_SIZE
      modifies heap, metrics
      ensures largest == LargerChild(old(heap[..size])[idx := value], idx)
      ensures moved <==> value < old(heap[largest])
      ensures moved ==> heap[..size][largest := value] == HeapSpec.Swap(old(heap[..size])[idx := value], idx, largest)
      ensures !moved ==> heap[..size] == old(heap[..size])
      ensures heap[size..] == old(heap[size..])
      ensures metrics != null ==>
                Reported(old(metrics.Snapshot()), metrics.Snapshot(), DownStepCost(Optimized, 2 * idx + 2 < size, moved))
    {
      var left := 2 * idx + 1;
      var right := left + 1;
      largest := left;
      if right < size {
        if metrics != null { metrics.IncComparisons(); }
        if heap[right] > heap[left] {
          largest := right;
        }
      }
      if metrics != null { metrics.IncComparisons(); }
      moved := heap[largest] > value;
      if moved {
        heap[idx] := heap[largest];
        if metrics != null {
          metrics.IncArrayAccessesBy(2);
          metrics.IncSwaps();
        }
      }
    }
  }
}
