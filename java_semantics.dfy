/** The few pieces of Java semantics the heaps depend on: 32-bit int
    arithmetic and java.util.Arrays.copyOf. */
module JavaSemantics {

  const INT_MIN: int := -0x8000_0000
  const INT_MAX: int := 0x7FFF_FFFF

  predicate IsInt(x: int) {
    INT_MIN <= x <= INT_MAX
  }

  /** The int that Java's 32-bit two's complement arithmetic yields for the
      mathematical value x. */
  function Wrap(x: int): (r: int)
    ensures IsInt(r)
    ensures (r - x) % 0x1_0000_0000 == 0
    ensures IsInt(x) ==> r == x
  {
    (x - INT_MIN) % 0x1_0000_0000 + INT_MIN
  }

  /** Java's x >>> 1 on an int: the bit pattern read as unsigned, then halved. */
  function UnsignedShiftRight1(x: int): (r: int)
    requires IsInt(x)
    ensures 0 <= r <= INT_MAX
    ensures 0 <= x ==> r == x / 2
    ensures x < 0 ==> r == (x + 0x1_0000_0000) / 2 && r > INT_MAX / 2
  {
    (x % 0x1_0000_0000) / 2
  }

  /** The contents Arrays.copyOf(a, n) returns for an int array: the first
      n elements of a, padded with zeros where a is shorter. */
  function CopiedOf(a: seq<int>, n: nat): (r: seq<int>)
    ensures |r| == n
    ensures forall i :: 0 <= i < n ==> r[i] == if i < |a| then a[i] else 0
  {
    seq(n, i requires 0 <= i < n => if i < |a| then a[i] else 0)
  }

  /** Arrays.copyOf(a, newLength): a fresh array of newLength elements that
      starts with the old contents and is padded with zeros. */
  method CopyOf(a: array<int>, newLength: nat) returns (b: array<int>)
    ensures fresh(b) && b.Length == newLength
    ensures forall i :: 0 <= i < newLength && i < a.Length ==> b[i] == a[i]
    ensures forall i :: a.Length <= i < newLength ==> b[i] == 0
    ensures b[..] == CopiedOf(a[..], newLength)
  {
    b := new int[newLength](_ => 0);
    var i := 0;
    while i < newLength && i < a.Length
      invariant 0 <= i <= newLength && i <= a.Length
      invariant forall k :: 0 <= k < i ==> b[k] == a[k]
      invariant forall k :: i <= k < newLength ==> b[k] == 0
    {
      b[i] := a[i];
      i := i + 1;
    }
    assert b[..] == CopiedOf(a[..], newLength);
  }
}
