/** The physical-slot arithmetic and the element-shifting loops of a
    circular buffer, shared by the two circular-buffer classes of the
    model (the `ArrayDeque` of Llist/SLList.cpp and the `Array` of
    array/arraydeque.cpp, whose loops are the same). Logical index `m` of
    a buffer whose head is `j` lives in physical slot `(j + m) % length`. */
module Circular {
  import opened Seqs

  /** The physical slot of logical index `m`, wrapping past the end of
      the array once (see `WrapMod`). */
  function Wrap(j: int, m: int, len: int): (p: int)
    requires 0 <= j < len && 0 <= m <= len
    ensures 0 <= p < len
  {
    if j + m < len then j + m else j + m - len
  }

  /** `Wrap` is the source's `(j + m) % len`. */
  lemma WrapMod(j: int, m: int, len: int)
    requires 0 <= j < len && 0 <= m <= len
    ensures Wrap(j, m, len) == (j + m) % len
  {
    if j + m >= len {
      assert j + m == 1 * len + (j + m - len);
    }
  }

  /** The logical contents of a buffer: `n` elements from head `j`. */
  ghost predicate Holds<T>(a: array<T>, j: int, s: seq<T>)
    reads a
  {
    0 <= j < a.Length && |s| <= a.Length &&
    forall m :: 0 <= m < |s| ==> a[Wrap(j, m, a.Length)] == s[m]
  }

  /** Moves each of the slots `j+1 .. j+i` one step towards the head
      (`for k in 0 .. i-1: a[j+k] = a[j+k+1]`): the left-part shift of
      an insertion after the head has been moved back one slot. */
  method ShiftFrontLeft<T>(a: array<T>, j: int, i: int, n: int)
    requires 0 <= j < a.Length && 0 <= i <= n < a.Length
    modifies a
    ensures forall m :: 0 <= m < i ==> a[Wrap(j, m, a.Length)] == old(a[Wrap(j, m + 1, a.Length)])
    ensures forall m :: i <= m <= n ==> a[Wrap(j, m, a.Length)] == old(a[Wrap(j, m, a.Length)])
  {
    var k := 0;
    while k < i
      invariant 0 <= k <= i
      invariant forall m :: 0 <= m < k ==> a[Wrap(j, m, a.Length)] == old(a[Wrap(j, m + 1, a.Length)])
      invariant forall m :: k <= m <= n ==> a[Wrap(j, m, a.Length)] == old(a[Wrap(j, m, a.Length)])
    {
      a[Wrap(j, k, a.Length)] := a[Wrap(j, k + 1, a.Length)];
      k := k + 1;
    }
  }

  /** Moves each of the slots `j+i .. j+n-1` one step away from the head
      (`for k = n down to i+1: a[j+k] = a[j+k-1]`): the right-part shift
      of an insertion. */
  method ShiftTailRight<T>(a: array<T>, j: int, i: int, n: int)
    requires 0 <= j < a.Length && 0 <= i <= n < a.Length
    modifies a
    ensures forall m :: 0 <= m <= i ==> a[Wrap(j, m, a.Length)] == old(a[Wrap(j, m, a.Length)])
    ensures forall m :: i < m <= n ==> a[Wrap(j, m, a.Length)] == old(a[Wrap(j, m - 1, a.Length)])
  {
    var k := n;
    while k > i
      invariant i <= k <= n
      invariant forall m :: 0 <= m <= k ==> a[Wrap(j, m, a.Length)] == old(a[Wrap(j, m, a.Length)])
      invariant forall m :: k < m <= n ==> a[Wrap(j, m, a.Length)] == old(a[Wrap(j, m - 1, a.Length)])
    {
      a[Wrap(j, k, a.Length)] := a[Wrap(j, k - 1, a.Length)];
      k := k - 1;
    }
  }

  /** Moves each of the slots `j .. j+i-1` one step away from the head
      (`for k = i down to 1: a[j+k] = a[j+k-1]`): the left-part shift of
      a removal, after which the head advances one slot. */
  method ShiftFrontRight<T>(a: array<T>, j: int, i: int, n: int)
    requires 0 <= j < a.Length && 0 <= i < n <= a.Length
    modifies a
    ensures a[Wrap(j, 0, a.Length)] == old(a[Wrap(j, 0, a.Length)])
    ensures forall m :: 0 < m <= i ==> a[Wrap(j, m, a.Length)] == old(a[Wrap(j, m - 1, a.Length)])
    ensures forall m :: i < m < n ==> a[Wrap(j, m, a.Length)] == old(a[Wrap(j, m, a.Length)])
  {
    var k := i;
    while k > 0
      invariant 0 <= k <= i
      invariant forall m :: 0 <= m <= k ==> a[Wrap(j, m, a.Length)] == old(a[Wrap(j, m, a.Length)])
      invariant forall m :: k < m <= i ==> a[Wrap(j, m, a.Length)] == old(a[Wrap(j, m - 1, a.Length)])
      invariant forall m :: i < m < n ==> a[Wrap(j, m, a.Length)] == old(a[Wrap(j, m, a.Length)])
    {
      a[Wrap(j, k, a.Length)] := a[Wrap(j, k - 1, a.Length)];
      k := k - 1;
    }
  }

  /** Moves each of the slots `j+i+1 .. j+n-1` one step towards the head
      (`for k in i .. n-2: a[j+k] = a[j+k+1]`): the right-part shift of a
      removal. */
  method ShiftTailLeft<T>(a: array<T>, j: int, i: int, n: int)
    requires 0 <= j < a.Length && 0 <= i < n <= a.Length
    modifies a
    ensures forall m :: 0 <= m < i ==> a[Wrap(j, m, a.Length)] == old(a[Wrap(j, m, a.Length)])
    ensures forall m :: i <= m < n - 1 ==> a[Wrap(j, m, a.Length)] == old(a[Wrap(j, m + 1, a.Length)])
  {
    var k := i;
    while k < n - 1
      invariant i <= k <= n - 1
      invariant forall m :: 0 <= m < i ==> a[Wrap(j, m, a.Length)] == old(a[Wrap(j, m, a.Length)])
      invariant forall m :: i <= m < k ==> a[Wrap(j, m, a.Length)] == old(a[Wrap(j, m + 1, a.Length)])
      invariant forall m :: k <= m < n ==> a[Wrap(j, m, a.Length)] == old(a[Wrap(j, m, a.Length)])
    {
      a[Wrap(j, k, a.Length)] := a[Wrap(j, k + 1, a.Length)];
      k := k + 1;
    }
  }

  /** A fresh buffer of length `len` holding, from slot 0 on and in
      logical order, the `n` elements of `a` that start at head `j`. */
  method CopyInOrder<T(0)>(a: array<T>, j: int, n: int, len: int) returns (b: array<T>)
    requires 0 <= n <= len && n <= a.Length && (n == 0 || 0 <= j < a.Length)
    ensures fresh(b) && b.Length == len
    ensures forall m :: 0 <= m < n ==> b[m] == a[Wrap(j, m, a.Length)]
  {
    b := new T[len];
    var k := 0;
    while k < n
      invariant 0 <= k <= n
      invariant forall m :: 0 <= m < k ==> b[m] == a[Wrap(j, m, a.Length)]
    {
      b[k] := a[Wrap(j, k, a.Length)];
      k := k + 1;
    }
  }

  /** The `i < n / 2` branch of an insertion: moves the head back one
      slot, shifts the first `i` elements towards it and stores `x` at
      index `i`.  Returns the new head. */
  method InsertNearHead<T>(a: array<T>, j: int, n: int, ghost s: seq<T>, i: int, x: T) returns (j': int)
    requires Holds(a, j, s) && n == |s| && 0 <= i <= n < a.Length
    modifies a
    ensures j' == if j == 0 then a.Length - 1 else j - 1
    ensures Holds(a, j', Insert(s, i, x))
  {
    j' := if j == 0 then a.Length - 1 else j - 1;
    assert forall m :: 0 <= m < n ==> Wrap(j', m + 1, a.Length) == Wrap(j, m, a.Length);
    ShiftFrontLeft(a, j', i, n);
    a[Wrap(j', i, a.Length)] := x;
    ghost var t := Insert(s, i, x);
    forall m | 0 <= m < |t| ensures a[Wrap(j', m, a.Length)] == t[m] {
      if m < i {
        assert a[Wrap(j', m, a.Length)] == s[m];
      } else if m > i {
        assert a[Wrap(j', m, a.Length)] == s[m - 1];
      }
    }
  }

  /** The other branch of an insertion: shifts the last `n - i` elements
      away from the head and stores `x` at index `i`. */
  method InsertNearTail<T>(a: array<T>, j: int, n: int, ghost s: seq<T>, i: int, x: T)
    requires Holds(a, j, s) && n == |s| && 0 <= i <= n < a.Length
    modifies a
    ensures Holds(a, j, Insert(s, i, x))
  {
    ShiftTailRight(a, j, i, n);
    a[Wrap(j, i, a.Length)] := x;
    ghost var t := Insert(s, i, x);
    forall m | 0 <= m < |t| ensures a[Wrap(j, m, a.Length)] == t[m] {
      if m < i {
        assert a[Wrap(j, m, a.Length)] == s[m];
      } else if m > i {
        assert a[Wrap(j, m, a.Length)] == s[m - 1];
      }
    }
  }

  /** The `i < n / 2` branch of a removal: shifts the first `i` elements
      over element `i` and advances the head one slot.  Returns the new
      head. */
  method RemoveNearHead<T>(a: array<T>, j: int, n: int, ghost s: seq<T>, i: int) returns (j': int)
    requires Holds(a, j, s) && n == |s| && 0 <= i < n
    modifies a
    ensures j' == Wrap(j, 1, a.Length)
    ensures Holds(a, j', Delete(s, i))
  {
    ShiftFrontRight(a, j, i, n);
    j' := Wrap(j, 1, a.Length);
    ghost var t := Delete(s, i);
    forall m | 0 <= m < |t| ensures a[Wrap(j', m, a.Length)] == t[m] {
      assert Wrap(j', m, a.Length) == Wrap(j, m + 1, a.Length);
      if m < i {
        assert a[Wrap(j, m + 1, a.Length)] == s[m];
      } else {
        assert a[Wrap(j, m + 1, a.Length)] == s[m + 1];
      }
    }
  }

  /** The other branch of a removal: shifts the elements after `i` over
      it, towards the head. */
  method RemoveNearTail<T>(a: array<T>, j: int, n: int, ghost s: seq<T>, i: int)
    requires Holds(a, j, s) && n == |s| && 0 <= i < n
    modifies a
    ensures Holds(a, j, Delete(s, i))
  {
    ShiftTailLeft(a, j, i, n);
    ghost var t := Delete(s, i);
    forall m | 0 <= m < |t| ensures a[Wrap(j, m, a.Length)] == t[m] {
      if m < i {
        assert a[Wrap(j, m, a.Length)] == s[m];
      } else {
        assert a[Wrap(j, m, a.Length)] == s[m + 1];
      }
    }
  }
}
