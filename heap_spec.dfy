/** What both heap classes compute, stated on the sequence heap[0..size):
    the index arithmetic, the max-heap property, the swap-based sifts that
    both variants are proved to agree with, the public operations as
    functions, and the work each variant reports to its tracker. */
module HeapSpec {
  import opened JavaSemantics
  import opened Metrics

  /** The largest size the model admits. Below it, left(i) + 1 cannot wrap
      for any index i < size, and doubling a storage length that is too
      small for size + 1 elements cannot overflow. */
  const MAX_SIZE: int := 0x3FFF_FFFF

  // ---------------------------------------------------------------------
  // Index arithmetic, as the classes compute it on Java ints.

  /** parent(i) = (i - 1) >>> 1. The shift is unsigned, so parent(0) and
      parent(-1) are Integer.MAX_VALUE rather than -1. */
  function Parent(i: int): (p: int)
    requires IsInt(i - 1)
    ensures 0 <= p <= INT_MAX
    ensures 1 <= i ==> p == (i - 1) / 2 && p < i
    ensures i == 0 || i == -1 ==> p == INT_MAX
  {
    UnsignedShiftRight1(i - 1)
  }

  /** left(i) = (i << 1) + 1, wrapping like Java does. */
  function Left(i: int): (l: int)
    requires IsInt(i)
    ensures 0 <= i < MAX_SIZE ==> l == 2 * i + 1 && l + 1 <= INT_MAX
    ensures i == INT_MAX ==> l == -1
  {
    Wrap(Wrap(2 * i) + 1)
  }

  // ---------------------------------------------------------------------
  // The heap property and its partial forms.

  /** The element at c is no greater than its parent. */
  ghost predicate Dominated(s: seq<int>, c: int)
    requires 0 < c < |s|
  {
    s[(c - 1) / 2] >= s[c]
  }

  /** The max-heap property: no element is greater than its parent. */
  ghost predicate IsHeap(s: seq<int>) {
    forall c :: 0 < c < |s| ==> Dominated(s, c)
  }

  /** Every parent/child pair whose parent index is at least lo is ordered
      (lo == 0 is the whole heap property). */
  ghost predicate OrderedFrom(s: seq<int>, lo: nat) {
    forall c :: 0 < c < |s| && lo <= (c - 1) / 2 ==> Dominated(s, c)
  }

  /** What holds while an element climbs from k: every pair is ordered
      except k and its parent, and k's parent dominates k's children. */
  ghost predicate HeapExceptUp(s: seq<int>, k: nat) {
    k < |s| &&
    (forall c :: 0 < c < |s| && c != k ==> Dominated(s, c)) &&
    (0 < k ==> forall c :: 0 < c < |s| && (c - 1) / 2 == k ==> s[(k - 1) / 2] >= s[c])
  }

  /** What holds while an element sinks from k inside the subtree rooted at
      lo: every pair below lo is ordered except k and its children, and k's
      parent dominates k's children. */
  ghost predicate HeapExceptDown(s: seq<int>, lo: nat, k: nat) {
    lo <= k < |s| &&
    (forall c :: 0 < c < |s| && lo <= (c - 1) / 2 && (c - 1) / 2 != k ==> Dominated(s, c)) &&
    (lo < k ==> lo <= (k - 1) / 2 &&
                forall c :: 0 < c < |s| && (c - 1) / 2 == k ==> s[(k - 1) / 2] >= s[c])
  }

  // ---------------------------------------------------------------------
  // The sifts, as the baseline performs them: one swap per level.

  /** s with the elements at i and j exchanged. */
  function Swap(s: seq<int>, i: nat, j: nat): (r: seq<int>)
    requires i < |s| && j < |s|
    ensures |r| == |s| && r[i] == s[j] && r[j] == s[i]
    ensures forall m :: 0 <= m < |s| && m != i && m != j ==> r[m] == s[m]
  {
    s[i := s[j]][j := s[i]]
  }

  /** The element at k climbs while its parent is strictly smaller. */
  function SiftedUp(s: seq<int>, k: nat): (r: seq<int>)
    requires k < |s|
    ensures |r| == |s|
    decreases k
  {
    if k == 0 then s
    else
      var p := (k - 1) / 2;
      if s[p] < s[k] then SiftedUp(Swap(s, p, k), p) else s
  }

  /** The larger child at k: the right one only when it exists and is
      strictly greater than the left one. */
  function LargerChild(s: seq<int>, k: nat): (c: nat)
    requires 2 * k + 1 < |s|
    ensures c == 2 * k + 1 || c == 2 * k + 2
    ensures c < |s| && s[c] >= s[2 * k + 1]
    ensures 2 * k + 2 < |s| ==> s[c] >= s[2 * k + 2]
  {
    if 2 * k + 2 < |s| && s[2 * k + 2] > s[2 * k + 1] then 2 * k + 2 else 2 * k + 1
  }

  /** The element at k sinks while its larger child is strictly greater. */
  function SiftedDown(s: seq<int>, k: nat): (r: seq<int>)
    requires k < |s|
    ensures |r| == |s|
    decreases |s| - k
  {
    if 2 * k + 1 >= |s| then s
    else
      var c := LargerChild(s, k);
      if s[k] < s[c] then SiftedDown(Swap(s, k, c), c) else s
  }

  /** buildHeap's loop: sift down from i, then from each smaller index. */
  function Built(s: seq<int>, i: int): (r: seq<int>)
    requires i < |s|
    ensures |r| == |s|
    decreases i + 1
  {
    if i < 0 then s else Built(SiftedDown(s, i), i - 1)
  }

  /** The index buildHeap starts from: the parent of the last element, for
      two elements or more. */
  function LastParent(n: nat): (r: int)
    ensures n >= 2 ==> 0 <= r && 2 * r + 1 < n <= 2 * r + 3
    ensures n < 2 ==> r == -1
  {
    (n - 2) / 2
  }

  /** The contents buildHeap leaves. */
  function Heapified(s: seq<int>): (r: seq<int>)
    ensures |r| == |s|
  {
    Built(s, LastParent(|s|))
  }

  /** ensureCapacity's storage length: unchanged while minCapacity fits,
      otherwise the larger of twice the old length and minCapacity. (Twice
      is written as a sum, which keeps the solver's arithmetic linear.) */
  function GrownLength(length: nat, minCapacity: int): (r: nat)
    ensures r >= length && r >= minCapacity
    ensures minCapacity <= length ==> r == length
    ensures minCapacity > length ==> r >= length + length && (r == length + length || r == minCapacity)
  {
    if minCapacity <= length then length
    else if length + length >= minCapacity then length + length
    else minCapacity
  }

  // ---------------------------------------------------------------------
  // The public operations, on heap[0..size).

  /** insert: append, then sift up from the new last index. */
  function Inserted(s: seq<int>, v: int): (r: seq<int>)
    ensures |r| == |s| + 1
  {
    SiftedUp(s + [v], |s|)
  }

  /** extractMax: the last element replaces the root, the size shrinks by one,
      and the new root sinks. */
  function Extracted(s: seq<int>): (r: seq<int>)
    requires |s| > 0
    ensures |r| == |s| - 1
  {
    Settled(Shrunk(s))
  }

  /** The last step of extractMax: the root sinks unless nothing is left. */
  function Settled(t: seq<int>): (r: seq<int>)
    ensures |r| == |t|
  {
    if |t| == 0 then t else SiftedDown(t, 0)
  }

  /** What extractMax sifts down: the last element moved to the root, and
      the size one smaller. */
  function Shrunk(s: seq<int>): (t: seq<int>)
    requires |s| > 0
    ensures |t| == |s| - 1
  {
    Swap(s, 0, |s| - 1)[..|s| - 1]
  }

  /** increaseKey: overwrite the element at i, then sift up from i. */
  function Increased(s: seq<int>, i: nat, v: int): (r: seq<int>)
    requires i < |s|
    ensures |r| == |s|
  {
    SiftedUp(s[i := v], i)
  }

  /** The lowest index holding x, or -1 when x does not occur. */
  function FirstIndexOf(s: seq<int>, x: int): (r: int)
    ensures -1 <= r < |s|
    ensures r >= 0 ==> s[r] == x
    ensures forall j :: 0 <= j < |s| && (r < 0 || j < r) ==> s[j] != x
    decreases |s|
  {
    if |s| == 0 then -1
    else if s[0] == x then 0
    else
      var r := FirstIndexOf(s[1..], x);
      if r < 0 then -1 else r + 1
  }

  /** The values that repeated extractMax calls return, in order. */
  function Drained(s: seq<int>): (r: seq<int>)
    ensures |r| == |s|
    ensures |s| > 0 ==> r[0] == s[0]
    decreases |s|
  {
    if |s| == 0 then [] else [s[0]] + Drained(Extracted(s))
  }

  predicate NonIncreasing(s: seq<int>) {
    forall i, j :: 0 <= i < j < |s| ==> s[i] >= s[j]
  }

  // ---------------------------------------------------------------------
  // Each sift only permutes the elements.

  lemma SwapPermutes(s: seq<int>, i: nat, j: nat)
    requires i < |s| && j < |s|
    ensures multiset(Swap(s, i, j)) == multiset(s)
  {
  }

  lemma {:induction false} SiftUpPermutes(s: seq<int>, k: nat)
    requires k < |s|
    ensures multiset(SiftedUp(s, k)) == multiset(s)
    decreases k
  {
    if k > 0 {
      var p := (k - 1) / 2;
      if s[p] < s[k] {
        SwapPermutes(s, p, k);
        SiftUpPermutes(Swap(s, p, k), p);
      }
    }
  }

  lemma {:induction false} SiftDownPermutes(s: seq<int>, k: nat)
    requires k < |s|
    ensures multiset(SiftedDown(s, k)) == multiset(s)
    decreases |s| - k
  {
    if 2 * k + 1 < |s| {
      var c := LargerChild(s, k);
      if s[k] < s[c] {
        SwapPermutes(s, k, c);
        SiftDownPermutes(Swap(s, k, c), c);
      }
    }
  }

  lemma {:induction false} BuildPermutes(s: seq<int>, i: int)
    requires i < |s|
    ensures multiset(Built(s, i)) == multiset(s)
    decreases i + 1
  {
    if i >= 0 {
      SiftDownPermutes(s, i);
      BuildPermutes(SiftedDown(s, i), i - 1);
    }
  }

  // ---------------------------------------------------------------------
  // The heap property is restored by each sift and kept by each operation.

  lemma {:induction false} SiftUpRestoresHeap(s: seq<int>, k: nat)
    requires HeapExceptUp(s, k)
    ensures IsHeap(SiftedUp(s, k))
    decreases k
  {
    if k > 0 {
      var p := (k - 1) / 2;
      if s[p] < s[k] {
        var t := Swap(s, p, k);
        forall c | 0 < c < |t| && c != p
          ensures Dominated(t, c)
        {
          if c == k {
          } else if (c - 1) / 2 == k {
          } else if (c - 1) / 2 == p {
            assert Dominated(s, c);
          } else {
            assert Dominated(s, c);
          }
        }
        if 0 < p {
          var g := (p - 1) / 2;
          assert Dominated(s, p);
          forall c | 0 < c < |t| && (c - 1) / 2 == p
            ensures t[g] >= t[c]
          {
            if c != k {
              assert Dominated(s, c);
            }
          }
        }
        SiftUpRestoresHeap(t, p);
      } else {
        assert Dominated(s, k);
      }
    }
  }

  lemma {:induction false} SiftDownRestoresOrder(s: seq<int>, lo: nat, k: nat)
    requires HeapExceptDown(s, lo, k)
    ensures OrderedFrom(SiftedDown(s, k), lo)
    decreases |s| - k
  {
    if 2 * k + 1 >= |s| {
      forall c | 0 < c < |s| && lo <= (c - 1) / 2
        ensures Dominated(s, c)
      {
        assert (c - 1) / 2 != k;
      }
    } else {
      var c := LargerChild(s, k);
      if s[k] < s[c] {
        var t := Swap(s, k, c);
        forall d | 0 < d < |t| && lo <= (d - 1) / 2 && (d - 1) / 2 != c
          ensures Dominated(t, d)
        {
          if (d - 1) / 2 == k {
            assert d == 2 * k + 1 || d == 2 * k + 2;
          } else if d == k {
            assert s[(k - 1) / 2] >= s[c];
          } else {
            assert Dominated(s, d);
          }
        }
        forall d | 0 < d < |t| && (d - 1) / 2 == c
          ensures t[k] >= t[d]
        {
          assert Dominated(s, d);
        }
        assert (c - 1) / 2 == k;
        SiftDownRestoresOrder(t, lo, c);
      } else {
        forall d | 0 < d < |s| && lo <= (d - 1) / 2
          ensures Dominated(s, d)
        {
          if (d - 1) / 2 == k {
            assert d == 2 * k + 1 || d == 2 * k + 2;
          }
        }
      }
    }
  }

  lemma {:induction false} BuildRestoresHeap(s: seq<int>, i: int)
    requires -1 <= i < |s| && OrderedFrom(s, i + 1)
    ensures IsHeap(Built(s, i))
    decreases i + 1
  {
    if i >= 0 {
      SiftDownRestoresOrder(s, i, i);
      BuildRestoresHeap(SiftedDown(s, i), i - 1);
    }
  }

  /** Heapified(s) is a heap for every s; buildHeap reaches it for two
      elements or more. */
  lemma HeapifyMakesHeap(s: seq<int>)
    ensures IsHeap(Heapified(s))
  {
    BuildRestoresHeap(s, LastParent(|s|));
  }

  /** buildHeap keeps the elements, duplicates included. */
  lemma HeapifyPermutes(s: seq<int>)
    ensures multiset(Heapified(s)) == multiset(s)
  {
    BuildPermutes(s, LastParent(|s|));
  }

  /** insert keeps the heap property. */
  lemma InsertKeepsHeap(s: seq<int>, v: int)
    requires IsHeap(s)
    ensures IsHeap(Inserted(s, v))
  {
    var t := s + [v];
    forall c | 0 < c < |t| && c != |s|
      ensures Dominated(t, c)
    {
      assert Dominated(s, c);
    }
    SiftUpRestoresHeap(t, |s|);
  }

  /** insert adds one copy of v to the elements and keeps all the others. */
  lemma InsertAddsValue(s: seq<int>, v: int)
    ensures multiset(Inserted(s, v)) == multiset(s) + multiset{v}
  {
    SiftUpPermutes(s + [v], |s|);
  }

  /** extractMax keeps the heap property. */
  lemma ExtractKeepsHeap(s: seq<int>)
    requires IsHeap(s) && |s| > 0
    ensures IsHeap(Extracted(s))
  {
    var t := Shrunk(s);
    if |t| > 0 {
      forall c | 0 < c < |t| && (c - 1) / 2 != 0
        ensures Dominated(t, c)
      {
        assert Dominated(s, c);
      }
      SiftDownRestoresOrder(t, 0, 0);
    }
  }

  /** extractMax removes one copy of the root from the elements and keeps
      all the others. */
  lemma ExtractRemovesRoot(s: seq<int>)
    requires |s| > 0
    ensures multiset(Extracted(s)) == multiset(s) - multiset{s[0]}
  {
    var u := Swap(s, 0, |s| - 1);
    var t := Shrunk(s);
    SwapPermutes(s, 0, |s| - 1);
    assert u == t + [s[0]];
    if |t| > 0 {
      SiftDownPermutes(t, 0);
    }
  }

  /** increaseKey with a value not below the current one keeps the heap property. */
  lemma IncreaseKeepsHeap(s: seq<int>, i: nat, v: int)
    requires IsHeap(s) && i < |s| && v >= s[i]
    ensures IsHeap(Increased(s, i, v))
  {
    var t := s[i := v];
    forall c | 0 < c < |t| && c != i
      ensures Dominated(t, c)
    {
      assert Dominated(s, c);
    }
    if 0 < i {
      assert Dominated(s, i);
      forall c | 0 < c < |t| && (c - 1) / 2 == i
        ensures t[(i - 1) / 2] >= t[c]
      {
        assert Dominated(s, c);
      }
    }
    SiftUpRestoresHeap(t, i);
  }

  /** increaseKey replaces one copy of s[i] by v and keeps all the other elements. */
  lemma IncreaseReplacesValue(s: seq<int>, i: nat, v: int)
    requires i < |s|
    ensures multiset(Increased(s, i, v)) == multiset(s) - multiset{s[i]} + multiset{v}
  {
    SiftUpPermutes(s[i := v], i);
  }

  // ---------------------------------------------------------------------
  // The root is the maximum, so draining a heap sorts it.

  lemma {:induction false} RootDominates(s: seq<int>, i: nat)
    requires IsHeap(s) && i < |s|
    ensures s[i] <= s[0]
    decreases i
  {
    if i > 0 {
      assert Dominated(s, i);
      RootDominates(s, (i - 1) / 2);
    }
  }

  /** The root of a heap is its largest element. */
  lemma RootIsMax(s: seq<int>)
    requires IsHeap(s)
    ensures forall x :: x in s ==> x <= s[0]
  {
    forall x | x in s
      ensures x <= s[0]
    {
      var i :| 0 <= i < |s| && s[i] == x;
      RootDominates(s, i);
    }
  }

  /** Whatever remains after an extraction is at most the extracted root. */
  lemma ExtractedBelowRoot(s: seq<int>)
    requires IsHeap(s) && |s| > 0
    ensures forall x :: x in multiset(Extracted(s)) ==> x <= s[0]
  {
    var e := Extracted(s);
    RootIsMax(s);
    ExtractRemovesRoot(s);
    forall x | x in multiset(e)
      ensures x <= s[0]
    {
      assert multiset(e) == multiset(s) - multiset{s[0]};
      assert x in multiset(s);
      assert x in s;
    }
  }

  /** Repeated extractMax returns every element, duplicates included. */
  lemma {:induction false} DrainPermutes(s: seq<int>)
    requires IsHeap(s)
    ensures multiset(Drained(s)) == multiset(s)
    decreases |s|
  {
    if |s| > 0 {
      ExtractKeepsHeap(s);
      ExtractRemovesRoot(s);
      DrainPermutes(Extracted(s));
    }
  }

  lemma PrependLargest(m: int, d: seq<int>)
    requires NonIncreasing(d)
    requires forall x :: x in multiset(d) ==> x <= m
    ensures NonIncreasing([m] + d)
  {
    var r := [m] + d;
    forall i, j | 0 <= i < j < |r|
      ensures r[i] >= r[j]
    {
      assert r[j] == d[j - 1] && r[j] in multiset(d);
      if i > 0 {
        assert r[i] == d[i - 1];
      }
    }
  }

  /** Repeated extractMax returns the elements in non-increasing order. */
  lemma {:induction false} DrainSorts(s: seq<int>)
    requires IsHeap(s)
    ensures NonIncreasing(Drained(s))
    decreases |s|
  {
    if |s| > 0 {
      var e := Extracted(s);
      ExtractKeepsHeap(s);
      DrainSorts(e);
      DrainPermutes(e);
      ExtractedBelowRoot(s);
      PrependLargest(s[0], Drained(e));
    }
  }

  // ---------------------------------------------------------------------
  // The work each variant reports. A Variant selects the counting scheme.

  datatype Variant = Baseline | Optimized

  /** One level of the sift-up loop: one comparison. The baseline also
      counts its two reads, and a swap (four accesses); the optimized variant
      counts a shift as one swap and two accesses. */
  function UpStepCost(v: Variant, moved: bool): (r: Cost)
    ensures r.comparisons == 1
    ensures r.swaps == (if moved then 1 else 0)
    ensures v == Baseline ==> r.accesses == 2 + 4 * r.swaps
    ensures v == Optimized ==> r.accesses == 2 * r.swaps
  {
    match v
    case Baseline => if moved then Cost(1, 1, 6) else Cost(1, 0, 2)
    case Optimized => if moved then Cost(1, 1, 2) else Cost(1, 0, 0)
  }

  /** One level of the sift-down loop that has a left child. The baseline
      counts a comparison before looking at the right child, one for the two
      children when the right one exists (with two reads), one against the
      larger child (with two reads), and a swap. The optimized variant does
      not count the first of these, nor its reads. */
  function DownStepCost(v: Variant, hasRight: bool, moved: bool): (r: Cost)
    ensures r.swaps == (if moved then 1 else 0)
    ensures v == Optimized ==> r.comparisons == (if hasRight then 2 else 1) && r.accesses == 2 * r.swaps
    ensures v == Baseline ==> r.comparisons == (if hasRight then 3 else 2) && r.accesses == 2 * (r.comparisons - 1) + 4 * r.swaps
  {
    var right := if hasRight then 1 else 0;
    var move := if moved then 1 else 0;
    match v
    case Baseline => Cost(2 + right, move, 2 + 2 * right + 4 * move)
    case Optimized => Cost(1 + right, move, 2 * move)
  }

  /** The optimized sifts also count the read of the moving value and its
      final write. */
  function HoleAccesses(v: Variant): (r: nat)
    ensures v == Baseline ==> r == 0
    ensures v == Optimized ==> r == 2
  {
    if v == Optimized then 2 else 0
  }

  /** The sift-up loop from k: one comparison per level visited, and one
      swap for every level the element climbs, all but possibly the last. */
  function SiftUpLoopCost(v: Variant, s: seq<int>, k: nat): (r: Cost)
    requires k < |s|
    ensures 0 <= r.swaps <= k && r.swaps <= r.comparisons <= r.swaps + 1
    ensures k == 0 <==> r.comparisons == 0
    ensures r.accesses >= 0
    decreases k
  {
    if k == 0 then NoCost
    else
      var p := (k - 1) / 2;
      if s[p] < s[k] then
        var step, rest := UpStepCost(v, true), SiftUpLoopCost(v, Swap(s, p, k), p);
        Cost(step.comparisons + rest.comparisons, step.swaps + rest.swaps, step.accesses + rest.accesses)
      else UpStepCost(v, false)
  }

  /** The sift-down loop from k: at least one comparison per level that has
      a left child, and at most one swap per such level. */
  function SiftDownLoopCost(v: Variant, s: seq<int>, k: nat): (r: Cost)
    requires k < |s|
    ensures 0 <= r.swaps <= SiftDownLevels(s, k) <= r.comparisons
    ensures r.accesses >= 0
    decreases |s| - k
  {
    if 2 * k + 1 >= |s| then NoCost
    else
      var c := LargerChild(s, k);
      var hasRight := 2 * k + 2 < |s|;
      if s[k] < s[c] then
        var step, rest := DownStepCost(v, hasRight, true), SiftDownLoopCost(v, Swap(s, k, c), c);
        Cost(step.comparisons + rest.comparisons, step.swaps + rest.swaps, step.accesses + rest.accesses)
      else DownStepCost(v, hasRight, false)
  }

  /** A whole sift-up: the loop, plus the optimized variant's read of the
      moving value and its final write. */
  function SiftUpCost(v: Variant, s: seq<int>, k: nat): (r: Cost)
    requires k < |s|
    ensures 0 <= r.swaps <= k && r.swaps <= r.comparisons <= r.swaps + 1
    ensures r.accesses >= HoleAccesses(v)
  {
    var loop := SiftUpLoopCost(v, s, k);
    loop.(accesses := loop.accesses + HoleAccesses(v))
  }

  /** A whole sift-down: the loop, plus the optimized variant's read of the
      moving value and its final write. */
  function SiftDownCost(v: Variant, s: seq<int>, k: nat): (r: Cost)
    requires k < |s|
    ensures 0 <= r.swaps <= SiftDownLevels(s, k) <= r.comparisons
    ensures r.accesses >= HoleAccesses(v)
  {
    var loop := SiftDownLoopCost(v, s, k);
    loop.(accesses := loop.accesses + HoleAccesses(v))
  }

  /** The number of sift-down levels that have a left child. */
  function SiftDownLevels(s: seq<int>, k: nat): (r: nat)
    requires k < |s|
    ensures r == 0 <==> 2 * k + 1 >= |s|
    ensures r <= |s| - k
    decreases |s| - k
  {
    if 2 * k + 1 >= |s| then 0
    else
      var c := LargerChild(s, k);
      if s[k] < s[c] then 1 + SiftDownLevels(Swap(s, k, c), c) else 1
  }

  /** buildHeap's loop from i down to 0: the sift-downs' work added up. */
  function BuildCost(v: Variant, s: seq<int>, i: int): (r: Cost)
    requires i < |s|
    ensures 0 <= r.swaps <= r.comparisons
    ensures r.accesses >= (i + 1) * HoleAccesses(v)
    decreases i + 1
  {
    if i < 0 then NoCost
    else
      var first, rest := SiftDownCost(v, s, i), BuildCost(v, SiftedDown(s, i), i - 1);
      Cost(first.comparisons + rest.comparisons, first.swaps + rest.swaps, first.accesses + rest.accesses)
  }

  /** insert: the write of the new element, then the sift-up. */
  function InsertCost(v: Variant, s: seq<int>, x: int): (r: Cost)
    ensures 0 <= r.swaps <= |s| && r.swaps <= r.comparisons <= r.swaps + 1
    ensures r.accesses >= 1 + HoleAccesses(v)
  {
    var sift := SiftUpCost(v, s + [x], |s|);
    sift.(accesses := sift.accesses + 1)
  }

  /** extractMax on a non-empty heap. The baseline reads the root and swaps
      it with the last element (a swap only when they differ in index); the
      optimized variant reads the root and assigns the last element to it. */
  function ExtractCost(v: Variant, s: seq<int>): (r: Cost)
    requires |s| > 0
    ensures 0 <= r.swaps <= r.comparisons + 1
    ensures r.accesses >= 1
  {
    var head, settle := ExtractHeadCost(v, s), SettleCost(v, Shrunk(s));
    Cost(head.comparisons + settle.comparisons, head.swaps + settle.swaps, head.accesses + settle.accesses)
  }

  /** extractMax up to the sift-down: the read of the root, then the
      baseline's swap with the last element or the optimized assignment. */
  function ExtractHeadCost(v: Variant, s: seq<int>): (r: Cost)
    requires |s| > 0
    ensures r.comparisons == 0
    ensures r.swaps == (if v == Baseline && |s| > 1 then 1 else 0)
    ensures r.accesses == 1 + 4 * r.swaps + (if v == Optimized then 1 else 0)
  {
    match v
    case Baseline => if |s| > 1 then Cost(0, 1, 5) else Cost(0, 0, 1)
    case Optimized => Cost(0, 0, 2)
  }

  /** The sift-down of the root, when anything is left to sift. */
  function SettleCost(v: Variant, t: seq<int>): (r: Cost)
    ensures |t| == 0 ==> r == NoCost
    ensures 0 <= r.swaps <= r.comparisons
  {
    if |t| == 0 then NoCost else SiftDownCost(v, t, 0)
  }

  /** increaseKey with a valid index and a value not below the current one:
      the read of the current value, the write, then the sift-up. */
  function IncreaseCost(v: Variant, s: seq<int>, i: nat, x: int): (r: Cost)
    requires i < |s|
    ensures 0 <= r.swaps <= i && r.swaps <= r.comparisons <= r.swaps + 1
    ensures r.accesses >= 2 + HoleAccesses(v)
  {
    var sift := SiftUpCost(v, s[i := x], i);
    sift.(accesses := sift.accesses + 2)
  }

  /** What the failing build of a 0- or 1-element array reports before its
      out-of-range read. The baseline's siftDown(Integer.MAX_VALUE) computes
      left = -1, which passes the leaf test: it counts the first comparison,
      then for one element the comparison and reads of the two children
      (the read at -1 throws), for none the comparison against the larger
      child and the read at Integer.MAX_VALUE (which throws). The optimized
      variant throws on its first, uncounted, read. */
  function FailedBuildCost(v: Variant, n: nat): (r: Cost)
    requires n < 2
    ensures r.swaps == 0
    ensures v == Optimized ==> r == NoCost
    ensures v == Baseline ==> r.comparisons == 2 && r.accesses == 2 - (1 - n)
  {
    match v
    case Baseline => if n == 1 then Cost(2, 0, 2) else Cost(2, 0, 1)
    case Optimized => NoCost
  }

  // ---------------------------------------------------------------------
  // How the two variants' reports compare.

  /** Sift-up: both variants report the same comparisons and swaps. */
  lemma {:induction false} SiftUpReportsAlike(s: seq<int>, k: nat)
    requires k < |s|
    ensures SiftUpLoopCost(Baseline, s, k).comparisons == SiftUpLoopCost(Optimized, s, k).comparisons
    ensures SiftUpLoopCost(Baseline, s, k).swaps == SiftUpLoopCost(Optimized, s, k).swaps
    decreases k
  {
    if k > 0 {
      var p := (k - 1) / 2;
      if s[p] < s[k] {
        SiftUpReportsAlike(Swap(s, p, k), p);
      }
    }
  }

  /** Sift-down: the same swaps, but the baseline reports one comparison
      more for every level it visits. */
  lemma {:induction false} SiftDownComparisonGap(s: seq<int>, k: nat)
    requires k < |s|
    ensures SiftDownLoopCost(Baseline, s, k).comparisons
            == SiftDownLoopCost(Optimized, s, k).comparisons + SiftDownLevels(s, k)
    ensures SiftDownLoopCost(Baseline, s, k).swaps == SiftDownLoopCost(Optimized, s, k).swaps
    decreases |s| - k
  {
    if 2 * k + 1 < |s| {
      var c := LargerChild(s, k);
      if s[k] < s[c] {
        SiftDownComparisonGap(Swap(s, k, c), c);
      }
    }
  }

  /** extractMax on two elements or more: the baseline reports one swap more
      than the optimized variant, for its swap of the root with the last element. */
  lemma ExtractReportsOneMoreSwap(s: seq<int>)
    requires |s| > 1
    ensures ExtractCost(Baseline, s).swaps == ExtractCost(Optimized, s).swaps + 1
  {
    SiftDownComparisonGap(Shrunk(s), 0);
    ExtractSwaps(Baseline, s);
    ExtractSwaps(Optimized, s);
  }

  /** The swaps extractMax reports: the baseline's one swap, then the sift-down's. */
  lemma ExtractSwaps(v: Variant, s: seq<int>)
    requires |s| > 1
    ensures ExtractCost(v, s).swaps == (if v == Baseline then 1 else 0) + SiftDownLoopCost(v, Shrunk(s), 0).swaps
  {
  }
}
