/** The baseline array-backed max-heap (algorithms.MaxHeap). Every array
    read and write in the mutating operations goes through a helper that
    reports one access, and a swap of two distinct slots reports one swap;
    peek reads heap[0] directly and reports nothing. Each sift is proved equal to the
    swap-based specification of HeapSpec, and the work it reports equal to
    the baseline cost functions there. */
module BaselineHeap {
  import opened Outcomes
  import opened JavaSemantics
  import opened Metrics
  import opened HeapSpec

  class MaxHeap {
    var heap: array<int>
    var size: nat
    const metrics: PerformanceTracker?

    /** The heap's elements: the first `size` slots of the storage. */
    function Elements(): seq<int>
      reads this, heap
      requires size <= heap.Length
    {
      heap[..size]
    }

    /** The class invariant: the live prefix fits the storage and is a
        max-heap; the size stays small enough that child indices never wrap. */
    ghost predicate Valid()
      reads this, heap
    {
      size <= heap.Length <= INT_MAX && size <= MAX_SIZE && IsHeap(heap[..size])
    }

    /** The body of MaxHeap(int, PerformanceTracker) once the capacity is
        known not to be negative: storage of at least one slot, all zero. */
    constructor WithCapacity(initialCapacity: nat, tracker: PerformanceTracker?)
      requires initialCapacity <= INT_MAX
      modifies tracker
      ensures Valid() && fresh(heap) && metrics == tracker && Elements() == []
      ensures heap.Length == if initialCapacity < 1 then 1 else initialCapacity
      ensures forall i :: 0 <= i < heap.Length ==> heap[i] == 0
      ensures tracker != null ==> tracker.Snapshot() == old(tracker.Snapshot()).Allocate(heap.Length)
    {
      metrics := tracker;
      heap := new int[if initialCapacity < 1 then 1 else initialCapacity](_ => 0);
      size := 0;
      new;
      if metrics != null { metrics.IncAllocationsBy(heap.Length); }
    }

    /** The body of MaxHeap(int[], PerformanceTracker) up to buildHeap: a
        private copy of the data, all of it live. */
    constructor Seeded(data: array<int>, tracker: PerformanceTracker?)
      requires data.Length <= MAX_SIZE
      modifies tracker
      ensures fresh(heap) && metrics == tracker
      ensures heap[..] == data[..] && size == heap.Length
      ensures tracker != null ==> tracker.Snapshot() == old(tracker.Snapshot()).Allocate(data.Length)
    {
      metrics := tracker;
      var copy := CopyOf(data, data.Length);
      heap := copy;
      size := data.Length;
      new;
      if metrics != null { metrics.IncAllocationsBy(heap.Length); }
    }

    /** new MaxHeap(initialCapacity, metrics): a negative capacity throws
        IllegalArgumentException before anything is counted. */
    static method New(initialCapacity: int, tracker: PerformanceTracker?) returns (r: Result<MaxHeap>)
      requires IsInt(initialCapacity)
      modifies tracker
      ensures initialCapacity < 0 ==> r == Err(IllegalArgument)
      ensures initialCapacity < 0 && tracker != null ==> tracker.Snapshot() == old(tracker.Snapshot())
      ensures initialCapacity >= 0 ==>
                r.Ok? && fresh(r.value) && fresh(r.value.heap) && r.value.Valid()
                && r.value.metrics == tracker && r.value.Elements() == []
                && r.value.heap.Length == (if initialCapacity < 1 then 1 else initialCapacity)
      ensures initialCapacity >= 0 && tracker != null ==>
                tracker.Snapshot() == old(tracker.Snapshot()).Allocate(r.value.heap.Length)
    {
      if initialCapacity < 0 {
        return Err(IllegalArgument);
      }
      var h := new MaxHeap.WithCapacity(initialCapacity, tracker);
      return Ok(h);
    }

    /** new MaxHeap(data, metrics). A null array throws
        IllegalArgumentException. Otherwise the copy is counted as an
        allocation and heapified; with fewer than two elements the first
        sift-down reads out of range and the constructor throws. */
    static method FromArray(data: array?<int>, tracker: PerformanceTracker?) returns (r: Result<MaxHeap>)
      requires data != null ==> data.Length <= MAX_SIZE
      modifies tracker
      ensures data == null ==> r == Err(IllegalArgument)
      ensures data == null && tracker != null ==> tracker.Snapshot() == old(tracker.Snapshot())
      ensures data != null && data.Length < 2 ==> r == Err(IndexOutOfBounds)
      ensures data != null && data.Length < 2 && tracker != null ==>
                Reported(old(tracker.Snapshot()).Allocate(data.Length), tracker.Snapshot(), FailedBuildCost(Baseline, data.Length))
      ensures data != null && data.Length >= 2 ==>
                r.Ok? && fresh(r.value) && fresh(r.value.heap) && r.value.Valid()
                && r.value.metrics == tracker && r.value.heap.Length == data.Length
                && r.value.Elements() == Heapified(data[..])
      ensures data != null && data.Length >= 2 && tracker != null ==>
                Reported(old(tracker.Snapshot()).Allocate(data.Length), tracker.Snapshot(), BuildCost(Baseline, data[..], LastParent(data.Length)))
    {
      if data == null {
        return Err(IllegalArgument);
      }
      var h := new MaxHeap.Seeded(data, tracker);
      var outcome := h.BuildHeap();
      if outcome.Failed? {
        return Err(outcome.error);
      }
      assert h.Elements() == h.heap[..];
      return Ok(h);
    }

    /** buildHeap: sift down from parent(size - 1) to 0. For 0 or 1
        elements parent() yields Integer.MAX_VALUE (an unsigned shift of -2
        or -1), so the loop runs siftDown(Integer.MAX_VALUE): left() wraps
        to -1, which passes the leaf test, and the reads that follow go out
        of range after counting what comes before them. */
    method BuildHeap() returns (outcome: Outcome)
      requires size == heap.Length <= MAX_SIZE
      modifies heap, metrics
      ensures size < 2 ==> outcome == Failed(IndexOutOfBounds) && heap[..] == old(heap[..])
      ensures size < 2 && metrics != null ==>
                Reported(old(metrics.Snapshot()), metrics.Snapshot(), FailedBuildCost(Baseline, size))
      ensures size >= 2 ==> outcome == Done && heap[..] == Heapified(old(heap[..])) && IsHeap(heap[..])
      ensures size >= 2 && metrics != null ==>
                Reported(old(metrics.Snapshot()), metrics.Snapshot(), BuildCost(Baseline, old(heap[..]), LastParent(size)))
    {
      var i := Parent(size - 1);
      if i >= size {
        // siftDown(Integer.MAX_VALUE) on 0 or 1 elements
        var l := Left(i);
        assert l == -1;
        var r := l + 1;
        CountComparison();
        if r < size {
          CountComparison();
          var vr := Read(r);
          // read(l) counts its access, then heap[-1] is out of range
          if metrics != null { metrics.IncArrayAccesses(); }
        } else {
          CountComparison();
          // read(idx) counts its access, then heap[Integer.MAX_VALUE] is out of range
          if metrics != null { metrics.IncArrayAccesses(); }
        }
        return Failed(IndexOutOfBounds);
      }
      assert i == LastParent(size);
      SiftDownEach(i);
      HeapifyMakesHeap(old(heap[..]));
      return Done;
    }

    /** The loop of buildHeap: sift down every index from i0 back to the root. */
    method SiftDownEach(i0: int)
      requires 0 <= i0 < size == heap.Length <= MAX_SIZE
      modifies heap, metrics
      ensures heap[..] == Built(old(heap[..]), i0)
      ensures metrics != null ==> Reported(old(metrics.Snapshot()), metrics.Snapshot(), BuildCost(Baseline, old(heap[..]), i0))
    {
      assert heap[..size] == heap[..];
      // what the tracker reads once the whole loop is reported
      ghost var goal := if metrics != null then metrics.Snapshot().Charge(BuildCost(Baseline, heap[..], i0)) else Zero;
      var i := i0;
      while i >= 0
        invariant -1 <= i < size
        invariant Built(heap[..size], i) == Built(old(heap[..]), i0)
        invariant metrics != null ==> Reported(metrics.Snapshot(), goal, BuildCost(Baseline, heap[..size], i))
      {
        SiftDown(i);
        i := i - 1;
      }
      assert heap[..size] == heap[..];
    }

    function Size(): (n: int)
      reads this, heap
      requires size <= heap.Length
      ensures n == |Elements()|
    {
      size
    }

    function IsEmpty(): (b: bool)
      reads this, heap
      requires size <= heap.Length
      ensures b <==> Elements() == []
    {
      size == 0
    }

    /** peek: the root, which is the largest element; an empty heap throws
        NoSuchElementException. Nothing is counted. */
    function Peek(): (r: Result<int>)
      reads this, heap
      requires Valid()
      ensures r == Err(NoSuchElement) <==> Elements() == []
      ensures r.Ok? ==> r.value in Elements() && forall x :: x in Elements() ==> x <= r.value
    {
      if size == 0 then Err(NoSuchElement)
      else
        RootIsMax(heap[..size]);
        Ok(heap[0])
    }

    /** What insert leaves of the storage: the length ensureCapacity(size + 1)
        picks, the same array while there was room, a fresh copy otherwise. */
    twostate predicate StorageGrown(oldSize: int)
      reads this
    {
      heap.Length == GrownLength(old(heap.Length), oldSize + 1)
      && (oldSize < old(heap.Length) ==> heap == old(heap))
      && (oldSize == old(heap.Length) ==> fresh(heap))
    }

    /** insert: grow the storage if it is full, write the value after the
        last element, and sift it up. */
    method Insert(value: int)
      requires Valid() && size < MAX_SIZE
      modifies this, heap, metrics
      ensures Valid() && size == old(size) + 1
      ensures Elements() == Inserted(old(Elements()), value)
      ensures StorageGrown(old(size))
      ensures heap[size..] == CopiedOf(old(heap[..]), heap.Length)[size..]
      ensures metrics != null ==>
                Reported(old(metrics.Snapshot()).Allocate(heap.Length - old(heap.Length)), metrics.Snapshot(),
                         InsertCost(Baseline, old(Elements()), value))
    {
      ghost var s := heap[..size];
      Append(value);
      label appended:
      SiftUp(size - 1);
      assert heap[size..] == old@appended(heap[size..]);
      if metrics != null {
        ReportsCompose(old(metrics.Snapshot()).Allocate(heap.Length - old(heap.Length)), old@appended(metrics.Snapshot()), metrics.Snapshot(),
                       Cost(0, 0, 1), SiftUpCost(Baseline, s + [value], |s|));
      }
      InsertKeepsHeap(s, value);
    }

    /** The first steps of insert: make room for one more element, write the
        value just past the end, and count it in. */
    method Append(value: int)
      requires size <= heap.Length <= INT_MAX && size < MAX_SIZE
      modifies this, heap, metrics
      ensures size == old(size) + 1 && size <= heap.Length <= INT_MAX
      ensures heap[..size] == old(heap[..size]) + [value]
      ensures StorageGrown(old(size))
      ensures heap[size..] == CopiedOf(old(heap[..]), heap.Length)[size..]
      ensures metrics != null ==>
                Reported(old(metrics.Snapshot()).Allocate(heap.Length - old(heap.Length)), metrics.Snapshot(), Cost(0, 0, 1))
    {
      EnsureCapacity(size + 1);
      ghost var grown := heap[..];
      assert heap[..size] == old(heap[..size]);
      Write(size, value);
      assert heap[size + 1..] == grown[size + 1..];
      size := size + 1;
      assert heap[..size] == old(heap[..size]) + [value];
    }

    /** extractMax: read the root, swap the last element into its place,
        shrink, and sift the new root down. The old root stays in the slot
        just past the new end. */
    method ExtractMax() returns (r: Result<int>)
      requires Valid()
      modifies this, heap, metrics
      ensures Valid() && heap == old(heap)
      ensures old(size) == 0 ==> r == Err(NoSuchElement) && size == 0 && heap[..] == old(heap[..])
      ensures old(size) == 0 && metrics != null ==> metrics.Snapshot() == old(metrics.Snapshot())
      ensures old(size) > 0 ==>
                r == Ok(old(heap[0])) && size == old(size) - 1
                && Elements() == Extracted(old(Elements()))
                && heap[size..] == [r.value] + old(heap[..])[size + 1..]
      ensures old(size) > 0 && metrics != null ==>
                Reported(old(metrics.Snapshot()), metrics.Snapshot(), ExtractCost(Baseline, old(Elements())))
    {
      if size == 0 {
        return Err(NoSuchElement);
      }
      ghost var s := heap[..size];
      var max := TakeRoot();
      ghost var tail := heap[size..];
      ghost var m := if metrics != null then metrics.Snapshot() else Zero;
      Settle();
      if metrics != null {
        ReportsCompose(old(metrics.Snapshot()), m, metrics.Snapshot(), ExtractHeadCost(Baseline, s), SettleCost(Baseline, Shrunk(s)));
      }
      assert heap[size..] == tail;
      ExtractKeepsHeap(s);
      return Ok(max);
    }

    /** The first steps of extractMax on a non-empty heap: read the root,
        swap the last element into its place, and shrink by one. The old
        root is left in the slot just past the new end. */
    method TakeRoot() returns (max: int)
      requires 0 < size <= heap.Length
      modifies this, heap, metrics
      ensures heap == old(heap) && size == old(size) - 1 && max == old(heap[0])
      ensures heap[..size] == Shrunk(old(heap[..size]))
      ensures heap[size..] == [max] + old(heap[..])[size + 1..]
      ensures metrics != null ==>
                Reported(old(metrics.Snapshot()), metrics.Snapshot(), ExtractHeadCost(Baseline, old(heap[..size])))
    {
      ghost var s := heap[..size];
      max := Read(0);
      Swap(0, size - 1);
      assert heap[..size][size - 1] == max;
      ghost var rest := heap[size..];
      size := size - 1;
      assert heap[..size] == Shrunk(s);
      assert heap[size..] == [max] + rest;
    }

    /** The end of extractMax: sift the new root down unless the heap is
        now empty. */
    method Settle()
      requires size <= heap.Length && size <= MAX_SIZE
      modifies heap, metrics
      ensures heap[..size] == Settled(old(heap[..size]))
      ensures heap[size..] == old(heap[size..])
      ensures metrics != null ==>
                Reported(old(metrics.Snapshot()), metrics.Snapshot(), SettleCost(Baseline, old(heap[..size])))
    {
      if size > 0 {
        SiftDown(0);
      }
    }

    /** increaseKey: an index outside [0, size) throws
        IndexOutOfBoundsException before anything is counted; a value below
        the current one throws IllegalArgumentException after its read;
        otherwise the value is written and sifted up. */
    method IncreaseKey(index: int, newValue: int) returns (outcome: Outcome)
      requires Valid()
      modifies heap, metrics
      ensures Valid()
      ensures !(0 <= index < size) ==> outcome == Failed(IndexOutOfBounds) && heap[..] == old(heap[..])
      ensures !(0 <= index < size) && metrics != null ==> metrics.Snapshot() == old(metrics.Snapshot())
      ensures 0 <= index < size && newValue < old(heap[index]) ==>
                outcome == Failed(IllegalArgument) && heap[..] == old(heap[..])
                && (metrics != null ==> Reported(old(metrics.Snapshot()), metrics.Snapshot(), Cost(0, 0, 1)))
      ensures 0 <= index < size && newValue >= old(heap[index]) ==>
                outcome == Done
                && Elements() == Increased(old(Elements()), index, newValue)
                && heap[size..] == old(heap[size..])
                && (metrics != null ==>
                      Reported(old(metrics.Snapshot()), metrics.Snapshot(), IncreaseCost(Baseline, old(Elements()), index, newValue)))
    {
      if index < 0 || index >= size {
        return Failed(IndexOutOfBounds);
      }
      var cur := Read(index);
      if newValue < cur {
        return Failed(IllegalArgument);
      }
      Write(index, newValue);
      assert heap[..size] == old(heap[..size])[index := newValue];
      SiftUp(index);
      IncreaseKeepsHeap(old(heap[..size]), index, newValue);
      return Done;
    }

    /** increaseKeyByValue: scan for the first slot holding oldValue and
        apply increaseKey there; report whether one was found. */
    method IncreaseKeyByValue(oldValue: int, newValue: int) returns (r: Result<bool>)
      requires Valid()
      modifies heap, metrics
      ensures Valid()
      ensures var k := FirstIndexOf(old(Elements()), oldValue);
              k < 0 ==>
                r == Ok(false) && heap[..] == old(heap[..])
                && (metrics != null ==> Reported(old(metrics.Snapshot()), metrics.Snapshot(), Cost(0, 0, size)))
      ensures var k := FirstIndexOf(old(Elements()), oldValue);
              k >= 0 && newValue < oldValue ==>
                r == Err(IllegalArgument) && heap[..] == old(heap[..])
                && (metrics != null ==> Reported(old(metrics.Snapshot()), metrics.Snapshot(), Cost(0, 0, k + 2)))
      ensures var k := FirstIndexOf(old(Elements()), oldValue);
              k >= 0 && newValue >= oldValue ==>
                r == Ok(true)
                && Elements() == Increased(old(Elements()), k, newValue)
                && heap[size..] == old(heap[size..])
                && (metrics != null ==>
                      Reported(old(metrics.Snapshot()), metrics.Snapshot(),
                               var c := IncreaseCost(Baseline, old(Elements()), k, newValue);
                               c.(accesses := c.accesses + k + 1)))
    {
      var i := 0;
      while i < size
        invariant 0 <= i <= size
        invariant forall j :: 0 <= j < i ==> heap[j] != oldValue
        invariant heap[..] == old(heap[..])
        invariant metrics != null ==> Reported(old(metrics.Snapshot()), metrics.Snapshot(), Cost(0, 0, i))
      {
        var x := Read(i);
        if x == oldValue {
          assert FirstIndexOf(old(Elements()), oldValue) == i;
          var outcome := IncreaseKey(i, newValue);
          if outcome.Failed? {
            return Err(outcome.error);
          }
          return Ok(true);
        }
        i := i + 1;
      }
      assert FirstIndexOf(old(Elements()), oldValue) < 0;
      return Ok(false);
    }

    /** ensureCapacity: keep the storage while minCapacity fits, otherwise
        copy it into max(2 * length, minCapacity) slots and count the new
        slots as allocations. */
    method EnsureCapacity(minCapacity: int)
      requires IsInt(minCapacity) && heap.Length <= INT_MAX
      requires minCapacity > heap.Length ==> IsInt(heap.Length + heap.Length)
      modifies this`heap, metrics
      ensures heap.Length == GrownLength(old(heap.Length), minCapacity)
      ensures minCapacity <= old(heap.Length) ==> heap == old(heap)
      ensures minCapacity > old(heap.Length) ==> fresh(heap)
      ensures heap[..] == CopiedOf(old(heap[..]), heap.Length)
      ensures metrics != null ==>
                metrics.Snapshot() == old(metrics.Snapshot()).Allocate(heap.Length - old(heap.Length))
    {
      if minCapacity <= heap.Length {
        assert heap[..] == CopiedOf(heap[..], heap.Length);
        return;
      }
      var oldLen := heap.Length;
      var newLen := if oldLen + oldLen >= minCapacity then oldLen + oldLen else minCapacity;
      heap := CopyOf(heap, newLen);
      if metrics != null { metrics.IncAllocationsBy(newLen - oldLen); }
    }

    /** siftUp: while the parent is strictly smaller, swap with it. */
    method SiftUp(idx0: int)
      requires 0 <= idx0 < size <= heap.Length && size <= MAX_SIZE
      modifies heap, metrics
      ensures heap[..size] == SiftedUp(old(heap[..size]), idx0)
      ensures heap[size..] == old(heap[size..])
      ensures metrics != null ==>
                Reported(old(metrics.Snapshot()), metrics.Snapshot(), SiftUpCost(Baseline, old(heap[..size]), idx0))
    {
      var idx := idx0;
      // what the tracker reads once the whole sift is reported
      ghost var goal := if metrics != null then metrics.Snapshot().Charge(SiftUpCost(Baseline, heap[..size], idx0)) else Zero;
      while idx > 0
        invariant 0 <= idx < size
        invariant SiftedUp(heap[..size], idx) == SiftedUp(old(heap[..size]), idx0)
        invariant heap[size..] == old(heap[size..])
        invariant metrics != null ==> Reported(metrics.Snapshot(), goal, SiftUpLoopCost(Baseline, heap[..size], idx))
      {
        var moved, p := RiseStep(idx);
        if !moved {
          break;
        }
        idx := p;
      }
    }

    /** One pass of siftUp's loop at idx > 0: one comparison of the parent
        with the element, and a swap when the parent is strictly smaller. */
    method RiseStep(idx: int) returns (moved: bool, p: int)
      requires 0 < idx < size <= heap.Length && size <= MAX_SIZE
      modifies heap, metrics
      ensures p == (idx - 1) / 2
      ensures moved <==> old(heap[p]) < old(heap[idx])
      ensures heap[..size] == if moved then HeapSpec.Swap(old(heap[..size]), p, idx) else old(heap[..size])
      ensures heap[size..] == old(heap[size..])
      ensures metrics != null ==> Reported(old(metrics.Snapshot()), metrics.Snapshot(), UpStepCost(Baseline, moved))
    {
      p := Parent(idx);
      CountComparison();
      var vp := Read(p);
      var vi := Read(idx);
      moved := vp < vi;
      if moved {
        Swap(p, idx);
      }
    }

    /** siftDown: while the larger child (the right one only when strictly
        greater) is strictly greater, swap with it. */
    method SiftDown(idx0: int)
      requires 0 <= idx0 < size <= heap.Length && size <= MAX_SIZE
      modifies heap, metrics
      ensures heap[..size] == SiftedDown(old(heap[..size]), idx0)
      ensures heap[size..] == old(heap[size..])
      ensures metrics != null ==>
                Reported(old(metrics.Snapshot()), metrics.Snapshot(), SiftDownCost(Baseline, old(heap[..size]), idx0))
    {
      var idx := idx0;
      // what the tracker reads once the whole sift is reported
      ghost var goal := if metrics != null then metrics.Snapshot().Charge(SiftDownCost(Baseline, heap[..size], idx0)) else Zero;
      while true
        invariant 0 <= idx < size
        invariant SiftedDown(heap[..size], idx) == SiftedDown(old(heap[..size]), idx0)
        invariant heap[size..] == old(heap[size..])
        invariant metrics != null ==> Reported(metrics.Snapshot(), goal, SiftDownLoopCost(Baseline, heap[..size], idx))
        decreases size - idx
      {
        var l := Left(idx);
        if l >= size {
          break;
        }
        var moved, largest := SinkStep(idx);
        if !moved {
          break;
        }
        idx := largest;
      }
    }

    /** One pass of siftDown's loop at an idx whose left child exists: a
        comparison that is counted before anything else, the comparison of
        the two children when the right one exists, the comparison with the
        larger child, and a swap when that child is strictly greater. */
    method SinkStep(idx: int) returns (moved: bool, largest: int)
      requires 0 <= idx && 2 * idx + 1 < size <= heap.Length && size <= MAX_SIZE
      modifies heap, metrics
      ensures largest == LargerChild(old(heap[..size]), idx)
      ensures moved <==> old(heap[idx]) < old(heap[largest])
      ensures heap[..size] == if moved then HeapSpec.Swap(old(heap[..size]), idx, largest) else old(heap[..size])
      ensures heap[size..] == old(heap[size..])
      ensures metrics != null ==>
                Reported(old(metrics.Snapshot()), metrics.Snapshot(), DownStepCost(Baseline, 2 * idx + 2 < size, moved))
    {
      var l := 2 * idx + 1;
      var r := l + 1;
      largest := l;
      CountComparison();
      if r < size {
        CountComparison();
        var vr := Read(r);
        var vl := Read(l);
        if vr > vl {
          largest := r;
        }
      }
      CountComparison();
      var vi := Read(idx);
      var vg := Read(largest);
      moved := vi < vg;
      if moved {
        Swap(idx, largest);
      }
    }

    /** swap: nothing happens for equal indices; otherwise two reads, two
        writes and one swap are counted. */
    method Swap(i: int, j: int)
      requires 0 <= i < size && 0 <= j < size && size <= heap.Length
      modifies heap, metrics
      ensures heap[..size] == HeapSpec.Swap(old(heap[..size]), i, j)
      ensures heap[size..] == old(heap[size..])
      ensures metrics != null ==>
                Reported(old(metrics.Snapshot()), metrics.Snapshot(), if i == j then NoCost else Cost(0, 1, 4))
    {
      if i == j {
        return;
      }
      var vi := Read(i);
      var vj := Read(j);
      Write(i, vj);
      Write(j, vi);
      if metrics != null { metrics.IncSwaps(); }
    }

    /** The guarded report that precedes each comparison of elements. */
    method CountComparison()
      modifies metrics
      ensures metrics != null ==> Reported(old(metrics.Snapshot()), metrics.Snapshot(), Cost(1, 0, 0))
    {
      if metrics != null { metrics.IncComparisons(); }
    }

    /** read: one counted access. */
    method Read(idx: int) returns (v: int)
      requires 0 <= idx < heap.Length
      modifies metrics
      ensures v == heap[idx]
      ensures metrics != null ==> Reported(old(metrics.Snapshot()), metrics.Snapshot(), Cost(0, 0, 1))
    {
      if metrics != null { metrics.IncArrayAccesses(); }
      v := heap[idx];
    }

    /** write: one counted access. */
    method Write(idx: int, value: int)
      requires 0 <= idx < heap.Length
      modifies heap, metrics
      ensures heap[..] == old(heap[..])[idx := value]
      ensures metrics != null ==> Reported(old(metrics.Snapshot()), metrics.Snapshot(), Cost(0, 0, 1))
    {
      if metrics != null { metrics.IncArrayAccesses(); }
      heap[idx] := value;
    }
  }
}
