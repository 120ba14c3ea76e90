/** The element-shifting loops of an array whose elements occupy a
    prefix of its slots, shared by the two such classes of the model (the
    `Array` of array/learn.cpp and the `ArrayStack` of dualarraystack.cpp,
    whose loops are the same). */
module Contiguous {
  /** Slots `0 .. |s|-1` of `a` hold `s`. */
  ghost predicate Prefix<T>(a: array<T>, s: seq<T>)
    reads a
  {
    |s| <= a.Length && forall m :: 0 <= m < |s| ==> a[m] == s[m]
  }

  /** `std::copy(a, a + n, b)` into a fresh buffer of `len` slots. */
  method CopyPrefix<T(0)>(a: array?<T>, n: int, len: int) returns (b: array<T>)
    requires 0 <= n <= len && (a == null ==> n == 0) && (a != null ==> n <= a.Length)
    ensures fresh(b) && b.Length == len
    ensures a != null ==> forall m :: 0 <= m < n ==> b[m] == a[m]
  {
    b := new T[len];
    var k := 0;
    while k < n
      invariant 0 <= k <= n
      invariant a != null ==> forall m :: 0 <= m < k ==> b[m] == a[m]
    {
      b[k] := a[k];
      k := k + 1;
    }
  }

  /** `std::copy(a + i + 1, a + n, a + i)`: moves slots `i+1 .. n-1` one
      step to the left, front to back. */
  method ShiftLeft<T>(a: array<T>, i: int, n: int)
    requires 0 <= i < n <= a.Length
    modifies a
    ensures forall m :: 0 <= m < i ==> a[m] == old(a[m])
    ensures forall m :: i <= m < n - 1 ==> a[m] == old(a[m + 1])
  {
    var k := i;
    while k < n - 1
      invariant i <= k <= n - 1
      invariant forall m :: 0 <= m < i ==> a[m] == old(a[m])
      invariant forall m :: i <= m < k ==> a[m] == old(a[m + 1])
      invariant forall m :: k <= m < n ==> a[m] == old(a[m])
    {
      a[k] := a[k + 1];
      k := k + 1;
    }
  }

  /** `std::copy_backward(a + i, a + n, a + n + 1)`: moves slots
      `i .. n-1` one step to the right, back to front. */
  method ShiftRight<T>(a: array<T>, i: int, n: int)
    requires 0 <= i <= n < a.Length
    modifies a
    ensures forall m :: 0 <= m <= i ==> a[m] == old(a[m])
    ensures forall m :: i < m <= n ==> a[m] == old(a[m - 1])
  {
    var k := n;
    while k > i
      invariant i <= k <= n
      invariant forall m :: 0 <= m <= k ==> a[m] == old(a[m])
      invariant forall m :: k < m <= n ==> a[m] == old(a[m - 1])
    {
      a[k] := a[k - 1];
      k := k - 1;
    }
  }
}
