/** The `Array` of array/learn.cpp: a growable array whose `n` elements
    occupy slots `0 .. n-1` of a buffer of `length` slots.  An insertion
    that finds it full first moves the elements into a buffer of
    `max(1, 2 * n)` slots; it never shrinks.  Index checks are `assert`s
    in the source, so they are preconditions here.  A moved-from array
    owns no buffer (`a == null`, `length == 0`). */
module ContiguousArray {
  import opened Seqs
  import opened Capacity
  import opened Contiguous

  class Array<T(0)> {
    var a: array?<T>
    var length: int
    var n: int
    /** The elements in use, `a[0 .. n-1]`. */
    ghost var Contents: seq<T>

    ghost predicate Valid()
      reads this, a
    {
      0 <= n <= length && n == |Contents| &&
      (a == null ==> length == 0) &&
      (a != null ==> a.Length == length && Prefix(a, Contents))
    }

    /** `Array(len)`: empty, with `len` slots. */
    constructor (len: int)
      requires len >= 0
      ensures Valid() && fresh(a) && length == len && Contents == []
    {
      a := new T[len];
      length, n := len, 0;
      Contents := [];
    }

    /** The copy constructor: the same elements and capacity in a buffer
        of its own. */
    constructor Copy(other: Array<T>)
      requires other.Valid()
      ensures Valid() && fresh(a)
      ensures Contents == other.Contents && length == other.length
    {
      var b := CopyPrefix(other.a, other.n, other.length);
      a, length, n := b, other.length, other.n;
      Contents := other.Contents;
    }

    function Size(): (r: int)
      reads this, a
      requires Valid()
      ensures r == |Contents|
    {
      n
    }

    function Capacity(): (r: int)
      reads this, a
      requires Valid()
      ensures r >= |Contents| && (a != null ==> r == a.Length)
    {
      length
    }

    /** `get(i)`, also `operator[]`. */
    function Get(i: int): (r: T)
      reads this, a
      requires Valid() && 0 <= i < |Contents|
      ensures r == Contents[i]
    {
      a[i]
    }

    /** `set(i, x)`: replaces element `i` and returns the value it had. */
    method Set(i: int, x: T) returns (y: T)
      requires Valid() && 0 <= i < |Contents|
      modifies this, a
      ensures Valid() && a == old(a) && length == old(length)
      ensures y == old(Contents)[i] && Contents == old(Contents)[i := x]
    {
      y := a[i];
      a[i] := x;
      Contents := Contents[i := x];
    }

    /** `resize()`: the elements move to a fresh buffer of
        `max(1, 2 * n)` slots. */
    method Resize()
      requires Valid()
      modifies this
      ensures Valid() && Contents == old(Contents)
      ensures fresh(a) && length == Max(1, 2 * |Contents|)
    {
      var newLength := Max(1, 2 * n);
      var b := CopyPrefix(a, n, newLength);
      a, length := b, newLength;
    }

    /** `add(i, x)`: inserts `x` at index `i`, first growing a full
        buffer. */
    method Add(i: int, x: T)
      requires Valid() && 0 <= i <= |Contents|
      modifies this, a
      ensures Valid() && Contents == Insert(old(Contents), i, x)
      ensures old(n) == old(length) ==> fresh(a) && length == Max(1, 2 * old(n))
      ensures old(n) < old(length) ==> a == old(a) && length == old(length)
    {
      if n + 1 > length {
        Resize();
      }
      ShiftRight(a, i, n);
      a[i] := x;
      n := n + 1;
      Contents := Insert(Contents, i, x);
    }

    /** `remove(i)`: deletes and returns element `i`, closing the gap
        from the right; the capacity never changes. */
    method Remove(i: int) returns (y: T)
      requires Valid() && 0 <= i < |Contents|
      modifies this, a
      ensures Valid() && a == old(a) && length == old(length)
      ensures y == old(Contents)[i] && Contents == Delete(old(Contents), i)
    {
      y := a[i];
      ShiftLeft(a, i, n);
      n := n - 1;
      Contents := Delete(Contents, i);
    }

    /** `push_back(x)`, which is `add(n, x)`. */
    method PushBack(x: T)
      requires Valid()
      modifies this, a
      ensures Valid() && Contents == old(Contents) + [x]
      ensures old(n) == old(length) ==> fresh(a) && length == Max(1, 2 * old(n))
      ensures old(n) < old(length) ==> a == old(a) && length == old(length)
    {
      Add(n, x);
      InsertAtEnd(old(Contents), x);
    }

    /** The copy assignment operator: a no-op on itself; otherwise the
        same elements and capacity as `other` in a buffer of its own. */
    method AssignFrom(other: Array<T>)
      requires Valid() && other.Valid()
      modifies this
      ensures Valid() && Contents == old(other.Contents) && length == old(other.length)
      ensures other == this ==> a == old(a)
      ensures other != this ==> fresh(a)
    {
      if other != this {
        var b := CopyPrefix(other.a, other.n, other.length);
        a, length, n := b, other.length, other.n;
        Contents := other.Contents;
      }
    }

    /** The move assignment operator: a no-op on itself; otherwise takes
        over the buffer of `other` and leaves it empty and without
        storage. */
    method MoveFrom(other: Array<T>)
      requires Valid() && other.Valid()
      modifies this, other
      ensures Valid() && other.Valid()
      ensures other == this ==> a == old(a) && Contents == old(Contents)
      ensures other != this ==> a == old(other.a) && length == old(other.length)
      ensures other != this ==> Contents == old(other.Contents)
      ensures other != this ==> other.a == null && other.length == 0 && other.Contents == []
    {
      if other != this {
        a, length, n := other.a, other.length, other.n;
        Contents := other.Contents;
        other.a, other.length, other.n := null, 0, 0;
        other.Contents := [];
      }
    }
  }

  /** The source's demonstration: three appends to a two-slot array grow
      it to four slots; then `add(1, 15)`, `set(2, 25)`, `remove(0)`, a
      copy, and a move assignment out of the copy. */
  method ArrayDemo() returns (capacity: int, replaced: int, removed: int, moved0: int, moved2: int, movedSize: int, copySize: int, copyCapacity: int)
    ensures capacity == 4 && replaced == 20 && removed == 10
    ensures moved0 == 15 && moved2 == 30 && movedSize == 3
    ensures copySize == 0 && copyCapacity == 0
  {
    var arr := new Array<int>(2);
    arr.PushBack(10);
    arr.PushBack(20);
    arr.PushBack(30);
    assert arr.Contents == [10, 20, 30];
    arr.Add(1, 15);
    assert arr.Contents == [10, 15, 20, 30];
    capacity := arr.Capacity();
    replaced := arr.Set(2, 25);
    assert arr.Contents == [10, 15, 25, 30];
    removed := arr.Remove(0);
    assert arr.Contents == [15, 25, 30];
    var copied := new Array.Copy(arr);
    var moved := new Array<int>(1);
    moved.MoveFrom(copied);
    moved0, moved2, movedSize := moved.Get(0), moved.Get(2), moved.Size();
    copySize, copyCapacity := copied.Size(), copied.Capacity();
  }
}
