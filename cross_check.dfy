/** The two heap classes side by side: started from the same data and
    given the same calls, they hold the same elements in the same order and
    return the same values and exceptions. Only the work they report differs
    (see the cost lemmas of HeapSpec). */
module CrossCheck {
  import opened Outcomes
  import opened JavaSemantics
  import opened Metrics
  import opened HeapSpec
  import opened BaselineHeap
  import opened OptimizedHeap

  /** A baseline heap and an optimized heap with the same live prefix, each
      in storage of its own. */
  ghost predicate Twins(a: MaxHeap, b: MaxHeapOptimized)
    reads a, a.heap, b, b.heap
  {
    a.Valid() && b.Valid() && a.heap != b.heap && a.Elements() == b.Elements()
  }

  /** Both constructors on the same array: both fail alike, or both yield
      heaps with the same contents. */
  method FromArrayBoth(data: array?<int>, ta: PerformanceTracker?, tb: PerformanceTracker?)
    returns (ra: Result<MaxHeap>, rb: Result<MaxHeapOptimized>)
    requires data != null ==> data.Length <= MAX_SIZE
    modifies ta, tb
    ensures ra.Err? <==> rb.Err?
    ensures ra.Err? ==> ra.error == rb.error
    ensures ra.Ok? ==> Twins(ra.value, rb.value)
  {
    ra := MaxHeap.FromArray(data, ta);
    rb := MaxHeapOptimized.FromArray(data, tb);
  }

  /** Both capacity constructors with the same capacity: both throw alike,
      or both yield empty heaps. */
  method NewBoth(initialCapacity: int, ta: PerformanceTracker?, tb: PerformanceTracker?)
    returns (ra: Result<MaxHeap>, rb: Result<MaxHeapOptimized>)
    requires IsInt(initialCapacity)
    modifies ta, tb
    ensures ra.Err? <==> rb.Err?
    ensures ra.Err? ==> ra.error == rb.error
    ensures ra.Ok? ==> Twins(ra.value, rb.value) && ra.value.Elements() == []
  {
    ra := MaxHeap.New(initialCapacity, ta);
    rb := MaxHeapOptimized.New(initialCapacity, tb);
  }

  method InsertBoth(a: MaxHeap, b: MaxHeapOptimized, value: int)
    requires Twins(a, b) && a.size < MAX_SIZE
    modifies a, a.heap, a.metrics, b, b.heap, b.metrics
    ensures Twins(a, b)
  {
    a.Insert(value);
    b.Insert(value);
  }

  method ExtractMaxBoth(a: MaxHeap, b: MaxHeapOptimized) returns (ra: Result<int>, rb: Result<int>)
    requires Twins(a, b)
    modifies a, a.heap, a.metrics, b, b.heap, b.metrics
    ensures Twins(a, b) && ra == rb
  {
    ra := a.ExtractMax();
    rb := b.ExtractMax();
  }

  method IncreaseKeyBoth(a: MaxHeap, b: MaxHeapOptimized, index: int, newValue: int)
    returns (oa: Outcome, ob: Outcome)
    requires Twins(a, b)
    modifies a.heap, a.metrics, b.heap, b.metrics
    ensures Twins(a, b) && oa == ob
  {
    oa := a.IncreaseKey(index, newValue);
    ob := b.IncreaseKey(index, newValue);
  }
}
