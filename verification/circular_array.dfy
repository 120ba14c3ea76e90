/** The `Array` of array/arraydeque.cpp: a circular buffer of `length`
    slots whose `n` elements start at slot `j`.  It doubles its storage
    when an insertion finds it full and never shrinks.  Index checks are
    `assert`s in the source, so they are preconditions here.  A moved-from
    array owns no buffer (`a == null`, `length == 0`). */
module CircularArray {
  import opened Seqs
  import opened Capacity
  import opened Circular

  class Array<T(0)> {
    var a: array?<T>
    var length: int
    var n: int
    var j: int
    /** The logical sequence: element `m` is `a[(j + m) % length]`. */
    ghost var Contents: seq<T>

    ghost predicate Valid()
      reads this, a
    {
      0 <= n <= length && n == |Contents| &&
      (a == null ==> length == 0) &&
      (a != null ==> a.Length == length) &&
      (length == 0 ==> j == 0) &&
      (length > 0 ==> a != null && Holds(a, j, Contents))
    }

    /** `Array(len)`: empty, with `len` slots. */
    constructor (len: int)
      requires len >= 0
      ensures Valid() && fresh(a) && length == len && j == 0 && Contents == []
    {
      a := new T[len];
      length, n, j := len, 0, 0;
      Contents := [];
    }

    /** The copy constructor: the same elements and capacity, with the
        head moved to slot 0. */
    constructor Copy(other: Array<T>)
      requires other.Valid()
      ensures Valid() && fresh(a) && j == 0
      ensures Contents == other.Contents && length == other.length
    {
      var b: array<T>;
      if other.a == null {
        b := new T[other.length];
      } else {
        b := CopyInOrder(other.a, other.j, other.n, other.length);
      }
      a, length, n, j := b, other.length, other.n, 0;
      Contents := other.Contents;
    }

    /** A move constructor, which the source does not declare (see
        `MoveInitDemo`): takes over the buffer of `other` and leaves it
        empty and without storage. */
    constructor Move(other: Array<T>)
      requires other.Valid()
      modifies other
      ensures Valid() && other.Valid()
      ensures a == old(other.a) && length == old(other.length) && j == old(other.j)
      ensures Contents == old(other.Contents)
      ensures other.a == null && other.length == 0 && other.Contents == []
    {
      a, length, n, j := other.a, other.length, other.n, other.j;
      Contents := other.Contents;
      new;
      other.a, other.length, other.n, other.j := null, 0, 0, 0;
      other.Contents := [];
    }

    function Size(): (r: int)
      reads this, a
      requires Valid()
      ensures r == |Contents|
    {
      n
    }

    function Capacity(): (r: int)
      reads this, a
      requires Valid()
      ensures r >= |Contents| && (a != null ==> r == a.Length)
    {
      length
    }

    function Empty(): (r: bool)
      reads this, a
      requires Valid()
      ensures r <==> Contents == []
    {
      n == 0
    }

    /** `get(i)`, also `operator[]`: element `i`, held in slot
        `(j + i) % length`. */
    function Get(i: int): (r: T)
      reads this, a
      requires Valid() && 0 <= i < |Contents|
      ensures r == Contents[i]
    {
      a[Wrap(j, i, length)]
    }

    /** `set(i, x)`: replaces element `i` and returns the value it had. */
    method Set(i: int, x: T) returns (y: T)
      requires Valid() && 0 <= i < |Contents|
      modifies this, a
      ensures Valid() && a == old(a) && length == old(length) && j == old(j)
      ensures y == old(Contents)[i] && Contents == old(Contents)[i := x]
    {
      var idx := Wrap(j, i, length);
      y := a[idx];
      a[idx] := x;
      Contents := Contents[i := x];
    }

    /** `resize()`: `max(1, 2 * length)` fresh slots holding the elements
        in logical order from slot 0. */
    method Resize()
      requires Valid()
      modifies this
      ensures Valid() && Contents == old(Contents)
      ensures fresh(a) && length == Max(1, 2 * old(length)) && j == 0
    {
      var newLength := Max(1, 2 * length);
      var b: array<T>;
      if a == null {
        b := new T[newLength];
      } else {
        b := CopyInOrder(a, j, n, newLength);
      }
      a, length, j := b, newLength, 0;
    }

    /** `add(i, x)`: inserts `x` at index `i`, first doubling a full
        buffer, and shifting whichever side of `i` is shorter. */
    method Add(i: int, x: T)
      requires Valid() && 0 <= i <= |Contents|
      modifies this, a
      ensures Valid() && Contents == Insert(old(Contents), i, x)
      ensures old(n) == old(length) ==> fresh(a) && length == Max(1, 2 * old(length))
      ensures old(n) < old(length) ==> a == old(a) && length == old(length)
      ensures var j0 := if old(n) == old(length) then 0 else old(j);
        j == if i < old(n) / 2 then (if j0 == 0 then length - 1 else j0 - 1) else j0
    {
      if n == length {
        Resize();
      }
      if i < n / 2 {
        j := InsertNearHead(a, j, n, Contents, i, x);
      } else {
        InsertNearTail(a, j, n, Contents, i, x);
      }
      n := n + 1;
      Contents := Insert(Contents, i, x);
    }

    /** `remove(i)`: deletes and returns element `i`, shifting whichever
        side of `i` is shorter; the capacity never changes. */
    method Remove(i: int) returns (y: T)
      requires Valid() && 0 <= i < |Contents|
      modifies this, a
      ensures Valid() && a == old(a) && length == old(length)
      ensures y == old(Contents)[i] && Contents == Delete(old(Contents), i)
      ensures j == if i < old(n) / 2 then Wrap(old(j), 1, length) else old(j)
    {
      y := a[Wrap(j, i, length)];
      if i < n / 2 {
        j := RemoveNearHead(a, j, n, Contents, i);
      } else {
        RemoveNearTail(a, j, n, Contents, i);
      }
      n := n - 1;
      Contents := Delete(Contents, i);
    }

    /** `push_back(x)`, which is `add(n, x)`. */
    method PushBack(x: T)
      requires Valid()
      modifies this, a
      ensures Valid() && Contents == old(Contents) + [x]
      ensures old(n) == old(length) ==> fresh(a) && length == Max(1, 2 * old(length))
      ensures old(n) < old(length) ==> a == old(a) && length == old(length)
      ensures j == if old(n) == old(length) then 0 else old(j)
    {
      Add(n, x);
      InsertAtEnd(old(Contents), x);
    }

    /** `pop_front()`, which is `remove(0)`. */
    method PopFront() returns (y: T)
      requires Valid() && |Contents| > 0
      modifies this, a
      ensures Valid() && a == old(a) && length == old(length)
      ensures y == old(Contents)[0] && Contents == old(Contents)[1..]
      ensures j == if old(n) >= 2 then Wrap(old(j), 1, length) else old(j)
    {
      y := Remove(0);
    }

    /** The copy assignment operator: a no-op on itself; otherwise the
        same elements and capacity as `other`, head at slot 0. */
    method AssignFrom(other: Array<T>)
      requires Valid() && other.Valid()
      modifies this
      ensures Valid() && Contents == old(other.Contents) && length == old(other.length)
      ensures other == this ==> a == old(a) && j == old(j)
      ensures other != this ==> fresh(a) && j == 0
    {
      if other != this {
        var b: array<T>;
        if other.a == null {
          b := new T[other.length];
        } else {
          b := CopyInOrder(other.a, other.j, other.n, other.length);
        }
        a, length, n, j := b, other.length, other.n, 0;
        Contents := other.Contents;
      }
    }

    /** The move assignment operator: a no-op on itself; otherwise takes
        over the buffer of `other` and leaves it empty and without
        storage. */
    method MoveFrom(other: Array<T>)
      requires Valid() && other.Valid()
      modifies this, other
      ensures Valid() && other.Valid()
      ensures other == this ==> a == old(a) && j == old(j) && Contents == old(Contents)
      ensures other != this ==> a == old(other.a) && length == old(other.length) && j == old(other.j)
      ensures other != this ==> Contents == old(other.Contents)
      ensures other != this ==> other.a == null && other.length == 0 && other.Contents == []
    {
      if other != this {
        a, length, n, j := other.a, other.length, other.n, other.j;
        Contents := other.Contents;
        other.a, other.length, other.n, other.j := null, 0, 0, 0;
        other.Contents := [];
      }
    }
  }

  /** The first steps of the source's demonstration: three appends to a
      two-slot array grow it, then `add(1, 15)`, `remove(2)`,
      `pop_front()`, `get(1)` and `set(1, 99)`. */
  method ArrayDemo() returns (removed: int, popped: int, got: int, replaced: int, first: int, second: int, size: int, capacity: int)
    ensures removed == 20 && popped == 10 && got == 30 && replaced == 30
    ensures first == 15 && second == 99 && size == 2 && capacity == 4
  {
    var arr := new Array<int>(2);
    arr.PushBack(10);
    arr.PushBack(20);
    arr.PushBack(30);
    assert arr.Contents == [10, 20, 30];
    arr.Add(1, 15);
    assert arr.Contents == [10, 15, 20, 30];
    removed := arr.Remove(2);
    assert arr.Contents == [10, 15, 30];
    popped := arr.PopFront();
    assert arr.Contents == [15, 30];
    got := arr.Get(1);
    replaced := arr.Set(1, 99);
    first, second := arr.Get(0), arr.Get(1);
    size, capacity := arr.Size(), arr.Capacity();
  }

  /** The source's `arr` after the steps of `ArrayDemo`: two elements in
      four slots, with the head at slot 1. */
  method DemoArray() returns (arr: Array<int>)
    ensures fresh(arr) && fresh(arr.a) && arr.Valid()
    ensures |arr.Contents| == 2 && arr.length == 4 && arr.j == 1
  {
    arr := new Array<int>(2);
    arr.PushBack(10);
    arr.PushBack(20);
    arr.PushBack(30);
    arr.Add(1, 15);
    var y := arr.Remove(2);
    y := arr.PopFront();
    y := arr.Set(1, 99);
  }

  /** The source's wrap-around loop: ten appends to that array double it
      twice, to 16 slots, and the last doubling resets the head to 0. */
  method GrowDemoArray(arr: Array<int>)
    requires arr.Valid() && |arr.Contents| == 2 && arr.length == 4 && arr.j == 1
    modifies arr, arr.a
    ensures fresh(arr.a) && arr.Valid()
    ensures |arr.Contents| == 12 && arr.length == 16 && arr.j == 0
  {
    for i := 0 to 10
      invariant arr.Valid() && |arr.Contents| == 2 + i
      invariant arr.length == if i <= 2 then 4 else if i <= 6 then 8 else 16
      invariant arr.j == if i <= 2 then 1 else 0
      invariant i <= 2 ==> arr.a == old(arr.a)
      invariant i > 2 ==> fresh(arr.a)
    {
      arr.PushBack(100 + i);
    }
  }

  /** The source's pop-all loop: every `pop_front` but the last, on a
      single element, advances the head, which ends at slot 11. */
  method DrainDemoArray(arr: Array<int>)
    requires arr.Valid() && |arr.Contents| == 12 && arr.length == 16 && arr.j == 0
    modifies arr, arr.a
    ensures arr.a == old(arr.a) && arr.Valid()
    ensures arr.Contents == [] && arr.length == 16 && arr.j == 11
  {
    while !arr.Empty()
      invariant arr.a == old(arr.a) && arr.Valid() && arr.length == 16 && |arr.Contents| <= 12
      invariant arr.j == if |arr.Contents| >= 1 then 12 - |arr.Contents| else 11
      decreases |arr.Contents|
    {
      var y := arr.PopFront();
    }
  }

  /** The source's `arr` when it is copied: after growing and draining,
      42 and 43 are appended from slot 11. */
  method CopySource() returns (arr: Array<int>)
    ensures fresh(arr) && fresh(arr.a) && arr.Valid()
    ensures arr.Contents == [42, 43] && arr.length == 16 && arr.j == 11
  {
    arr := DemoArray();
    GrowDemoArray(arr);
    DrainDemoArray(arr);
    arr.PushBack(42);
    arr.PushBack(43);
  }

  /** The copy constructor and copy assignment applied to that array: both
      hold 42 and 43 with head 0 and keep its 16 slots. */
  method CopyDemo() returns (sourceHead: int, c0: int, c1: int, cHead: int, d0: int, d1: int, dHead: int, dLength: int)
    ensures sourceHead == 11
    ensures c0 == 42 && c1 == 43 && cHead == 0
    ensures d0 == 42 && d1 == 43 && dHead == 0 && dLength == 16
  {
    var arr := CopySource();
    sourceHead := arr.j;
    var copy := new Array.Copy(arr);
    c0, c1, cHead := copy.Get(0), copy.Get(1), copy.j;
    var assign := new Array<int>(1);
    assign.AssignFrom(arr);
    d0, d1, dHead, dLength := assign.Get(0), assign.Get(1), assign.j, assign.Capacity();
  }

  /** `assign`, copy-assigned from the demo's `arr`, then
      `Array<int> moved = std::move(assign);` as written: the class
      declares a copy constructor, a copy assignment, a move assignment
      and a destructor, so C++ gives it no move constructor and the copy
      constructor initialises `moved`; `assign` keeps its two elements. */
  method MoveInitDemo() returns (movedSize: int, movedCapacity: int, assignSize: int)
    ensures movedSize == 2 && movedCapacity == 16 && assignSize == 2
  {
    var arr := CopySource();
    var assign := new Array<int>(1);
    assign.AssignFrom(arr);
    var moved := new Array.Copy(assign);
    movedSize, movedCapacity, assignSize := moved.Size(), moved.Capacity(), assign.Size();
  }

  /** The same initialisation with a move constructor, as the source's
      expectation that `assign.size()` is 0 presumes. */
  method MoveInitCorrectedDemo() returns (movedSize: int, movedCapacity: int, assignSize: int)
    ensures movedSize == 2 && movedCapacity == 16 && assignSize == 0
  {
    var arr := CopySource();
    var assign := new Array<int>(1);
    assign.AssignFrom(arr);
    var moved := new Array.Move(assign);
    movedSize, movedCapacity, assignSize := moved.Size(), moved.Capacity(), assign.Size();
  }

  /** Move assignment between two arrays transfers the elements and
      empties the source. */
  method MoveAssignDemo() returns (movedSize: int, movedFirst: int, sourceSize: int, sourceCapacity: int)
    ensures movedSize == 2 && movedFirst == 42 && sourceSize == 0 && sourceCapacity == 0
  {
    var source := new Array<int>(2);
    source.PushBack(42);
    source.PushBack(43);
    var target := new Array<int>(1);
    target.MoveFrom(source);
    assert target.Contents == [42, 43];
    movedSize, movedFirst := target.Size(), target.Get(0);
    sourceSize, sourceCapacity := source.Size(), source.Capacity();
  }
}
