/** `ArrayDeque` and `BDeque` of Llist/SLList.cpp: a circular buffer whose
    `n` elements start at slot `j` of the backing array `a` and wrap
    around its end. `ArrayDeque` doubles or shrinks its storage through
    `resize`; `BDeque` overrides `resize` with a no-op so that its
    capacity stays `b + 1` for its lifetime. One class models both: the
    `bounded` flag selects the `BDeque` policy. */
module Ring {
  import opened Errors
  import opened Seqs
  import opened Circular
  import opened Capacity

  class ArrayDeque<T(0)> {
    /** True for a `BDeque`, whose `resize` does nothing. */
    const bounded: bool
    var a: array<T>
    var n: int
    var j: int
    /** The logical sequence: element `k` is `a[(j + k) % a.Length]`. */
    ghost var Contents: seq<T>

    ghost predicate Valid()
      reads this, a
    {
      a.Length >= 1 && n == |Contents| && Holds(a, j, Contents)
    }

    /** `ArrayDeque()`: empty, with a backing array of one slot. */
    constructor ()
      ensures Valid() && fresh(a) && !bounded
      ensures Contents == [] && a.Length == 1 && j == 0
    {
      bounded := false;
      a := new T[1];
      n, j := 0, 0;
      Contents := [];
    }

    /** `BDeque(b)`: empty, with a backing array of `b + 1` slots. */
    constructor Bounded(b: int)
      requires b >= 0
      ensures Valid() && fresh(a) && bounded
      ensures Contents == [] && a.Length == b + 1 && j == 0
    {
      bounded := true;
      a := new T[b + 1];
      n, j := 0, 0;
      Contents := [];
    }

    function Size(): (s: int)
      reads this, a
      requires Valid()
      ensures s == |Contents|
    {
      n
    }

    /** `ArrayDeque::resize` copies the elements in logical order into a
        fresh array of `max(1, 2n)` slots and resets the head to 0; the
        `BDeque` override does nothing. */
    method Resize()
      requires Valid()
      modifies this
      ensures Valid() && Contents == old(Contents)
      ensures bounded ==> a == old(a) && j == old(j)
      ensures !bounded ==> fresh(a) && a.Length == Max(1, 2 * n) && j == 0
    {
      if !bounded {
        var b := CopyInOrder(a, j, n, Max(1, 2 * n));
        a, j := b, 0;
      }
    }

    method Get(i: int) returns (r: Result<T>)
      requires Valid()
      ensures r.Ok? <==> 0 <= i < |Contents|
      ensures r.Ok? ==> r.value == Contents[i]
      ensures r.Err? ==> r.error == OutOfRange
    {
      if i < 0 || i >= n {
        return Err(OutOfRange);
      }
      r := Ok(a[Wrap(j, i, a.Length)]);
    }

    /** Replaces element `i` and returns the value it had. */
    method Set(i: int, x: T) returns (r: Result<T>)
      requires Valid()
      modifies this, a
      ensures Valid() && a == old(a) && n == old(n) && j == old(j)
      ensures r.Ok? <==> 0 <= i < old(|Contents|)
      ensures r.Ok? ==> r.value == old(Contents[i]) && Contents == old(Contents)[i := x]
      ensures r.Err? ==> r.error == OutOfRange && Contents == old(Contents) && unchanged(a)
    {
      if i < 0 || i >= n {
        return Err(OutOfRange);
      }
      var p := Wrap(j, i, a.Length);
      var y := a[p];
      a[p] := x;
      Contents := Contents[i := x];
      r := Ok(y);
    }

    /** Inserts `x` at index `i`, growing a full `ArrayDeque` first and
        shifting whichever side of `i` is shorter. A `BDeque` cannot grow,
        so its callers must leave it room. */
    method Add(i: int, x: T) returns (r: Status)
      requires Valid()
      requires bounded && 0 <= i <= |Contents| ==> |Contents| < a.Length
      modifies this, a
      ensures Valid()
      ensures r.Done? <==> 0 <= i <= old(|Contents|)
      ensures r.Done? ==> Contents == Insert(old(Contents), i, x)
      ensures r.Failed? ==> r.error == OutOfRange && Contents == old(Contents) && a == old(a) && j == old(j) && unchanged(a)
      ensures bounded ==> a == old(a)
      ensures !bounded && r.Done? && old(|Contents|) == old(a.Length) ==> fresh(a) && a.Length == Max(1, 2 * old(|Contents|))
      ensures old(|Contents|) < old(a.Length) ==> a == old(a)
    {
      if i < 0 || i > n {
        return Failed(OutOfRange);
      }
      if n + 1 > a.Length {
        Resize();
      }
      if i < n / 2 {
        j := InsertNearHead(a, j, n, Contents, i, x);
      } else {
        InsertNearTail(a, j, n, Contents, i, x);
      }
      n := n + 1;
      Contents := Insert(Contents, i, x);
      r := Done;
    }

    /** `add(x)`: appends at the end. */
    method Append(x: T)
      requires Valid()
      requires bounded ==> |Contents| < a.Length
      modifies this, a
      ensures Valid() && Contents == old(Contents) + [x]
      ensures bounded ==> a == old(a)
    {
      var r := Add(n, x);
      InsertAtEnd(old(Contents), x);
    }

    /** Removes and returns element `i`, shifting whichever side of `i` is
        shorter; an `ArrayDeque` then shrinks to `max(1, 2n)` slots when
        fewer than a third of its slots are in use. */
    method Remove(i: int) returns (r: Result<T>)
      requires Valid()
      modifies this, a
      ensures Valid()
      ensures r.Ok? <==> 0 <= i < old(|Contents|)
      ensures r.Ok? ==> r.value == old(Contents[i]) && Contents == Delete(old(Contents), i)
      ensures r.Err? ==> r.error == OutOfRange && Contents == old(Contents) && a == old(a) && j == old(j) && unchanged(a)
      ensures bounded ==> a == old(a)
      ensures !bounded && r.Ok? && 3 * |Contents| < old(a.Length) ==> fresh(a) && a.Length == Max(1, 2 * |Contents|)
      ensures r.Ok? && 3 * |Contents| >= old(a.Length) ==> a == old(a)
    {
      if i < 0 || i >= n {
        return Err(OutOfRange);
      }
      var x := a[Wrap(j, i, a.Length)];
      if i < n / 2 {
        j := RemoveNearHead(a, j, n, Contents, i);
      } else {
        RemoveNearTail(a, j, n, Contents, i);
      }
      n := n - 1;
      Contents := Delete(Contents, i);
      if 3 * n < a.Length {
        Resize();
      }
      r := Ok(x);
    }
  }

  /** `add(i, x)` on a `BDeque` whose every slot is in use, as written:
      the `resize` it calls does nothing, so the `n + 1` elements of the
      insertion are laid out from the new head round a ring of only `n`
      slots, and logical indices `0` and `n` share a slot.  Near the head
      the head moves back onto the slot of the last element, which the
      first shift (or `x`, when `i == 0`) overwrites: element `n`, the old
      last element, is lost.  Otherwise the first pass of the tail shift
      (`k == n`) writes into the slot of element 0, which is lost unless
      `x` itself goes there.  Either way `n` then exceeds the capacity. */
  method AddWhenFull<T>(a: array<T>, j: int, n: int, ghost s: seq<T>, i: int, x: T) returns (j': int, n': int)
    requires Holds(a, j, s) && n == |s| == a.Length && 0 <= i <= n
    modifies a
    ensures j' == if i < n / 2 then (if j == 0 then n - 1 else j - 1) else j
    ensures n' == n + 1 && n' > a.Length
    ensures forall m :: 0 < m < n ==> a[Wrap(j', m, a.Length)] == Insert(s, i, x)[m]
    ensures a[j'] == if i < n / 2 || i == 0 then Insert(s, i, x)[0] else Insert(s, i, x)[n]
  {
    if i < n / 2 {
      j' := FullNearHead(a, j, n, s, i, x);
    } else {
      FullNearTail(a, j, n, s, i, x);
      j' := j;
    }
    n' := n + 1;
  }

  /** The `i < n / 2` branch of `AddWhenFull`: the head moves back onto
      the slot of the last element and the first `i` elements shift
      towards it, so the ring holds the first `n` elements of the
      insertion. */
  method FullNearHead<T>(a: array<T>, j: int, n: int, ghost s: seq<T>, i: int, x: T) returns (j': int)
    requires Holds(a, j, s) && n == |s| == a.Length && 0 <= i < n / 2
    modifies a
    ensures j' == if j == 0 then n - 1 else j - 1
    ensures forall m :: 0 <= m < n ==> a[Wrap(j', m, a.Length)] == Insert(s, i, x)[m]
  {
    ghost var t := Insert(s, i, x);
    j' := if j == 0 then n - 1 else j - 1;
    assert forall m :: 0 <= m < n - 1 ==> Wrap(j', m + 1, a.Length) == Wrap(j, m, a.Length);
    ShiftFrontLeft(a, j', i, n - 1);
    a[Wrap(j', i, a.Length)] := x;
    forall m | 0 <= m < n ensures a[Wrap(j', m, a.Length)] == t[m] {
      if m < i {
        assert a[Wrap(j', m, a.Length)] == s[m];
      } else if m > i {
        assert a[Wrap(j', m, a.Length)] == s[m - 1];
      }
    }
  }

  /** The other branch of `AddWhenFull`: the tail shift starts at
      `k == n`, whose slot is element 0's, then moves the elements after
      `i` away from the head; `x` is stored at index `i`. */
  method FullNearTail<T>(a: array<T>, j: int, n: int, ghost s: seq<T>, i: int, x: T)
    requires Holds(a, j, s) && n == |s| == a.Length && n / 2 <= i <= n
    modifies a
    ensures forall m :: 0 < m < n ==> a[Wrap(j, m, a.Length)] == Insert(s, i, x)[m]
    ensures a[j] == if i == 0 then Insert(s, i, x)[0] else Insert(s, i, x)[n]
  {
    ghost var t := Insert(s, i, x);
    if i == n {
      assert Wrap(j, n, a.Length) == j;
      a[Wrap(j, n, a.Length)] := x;
      forall m | 0 < m < n ensures a[Wrap(j, m, a.Length)] == t[m] {
        assert Wrap(j, m, a.Length) != j;
      }
    } else {
      FullTailShift(a, j, n, s, i);
      PutAt(a, j, n, s, i, x);
    }
  }

  /** The store of `x` at index `i` that ends the tail branch of
      `AddWhenFull`, after the shift. */
  method PutAt<T>(a: array<T>, j: int, n: int, ghost s: seq<T>, i: int, x: T)
    requires 0 <= j < a.Length && n == |s| == a.Length && n / 2 <= i < n
    requires a[j] == s[n - 1]
    requires forall m :: 0 < m <= i ==> a[Wrap(j, m, a.Length)] == s[m]
    requires forall m :: i < m < n ==> a[Wrap(j, m, a.Length)] == s[m - 1]
    modifies a
    ensures forall m :: 0 < m < n ==> a[Wrap(j, m, a.Length)] == Insert(s, i, x)[m]
    ensures a[j] == if i == 0 then Insert(s, i, x)[0] else Insert(s, i, x)[n]
  {
    ghost var t := Insert(s, i, x);
    a[Wrap(j, i, a.Length)] := x;
    forall m | 0 < m < n ensures a[Wrap(j, m, a.Length)] == t[m] {
      if m != i {
        assert Wrap(j, m, a.Length) != Wrap(j, i, a.Length);
      }
    }
    if i > 0 {
      assert Wrap(j, i, a.Length) != j;
    }
  }

  /** The tail shift of `add(i, x)` on a full ring, `k` running from `n`
      down to `i + 1`: its first pass copies the last element into slot
      `(j + n) % n`, which is element 0's. */
  method FullTailShift<T>(a: array<T>, j: int, n: int, ghost s: seq<T>, i: int)
    requires Holds(a, j, s) && n == |s| == a.Length && n / 2 <= i < n
    modifies a
    ensures a[j] == s[n - 1]
    ensures forall m :: 0 < m <= i ==> a[Wrap(j, m, a.Length)] == s[m]
    ensures forall m :: i < m < n ==> a[Wrap(j, m, a.Length)] == s[m - 1]
  {
    assert Wrap(j, n, a.Length) == j == Wrap(j, 0, a.Length);
    a[Wrap(j, n, a.Length)] := a[Wrap(j, n - 1, a.Length)];
    assert forall m :: 0 < m < n ==> a[Wrap(j, m, a.Length)] == s[m];
    ShiftTailRight(a, j, i, n - 1);
  }

  /** The source's `BDeque(3)` after appending 10, 20, 30 and inserting
      5 at the front: all four slots are in use. */
  method FullBDeque() returns (d: ArrayDeque<int>)
    ensures fresh(d) && fresh(d.a) && d.Valid() && d.bounded
    ensures d.Contents == [5, 10, 20, 30] && d.a.Length == 4
  {
    d := new ArrayDeque<int>.Bounded(3);
    d.Append(10);
    d.Append(20);
    d.Append(30);
    var r := d.Add(0, 5);
    assert d.Contents == [5, 10, 20, 30];
  }

  /** The source's `BDeque(3)` demonstration with the overfull `add(40)`
      left out (see `OverfullDemo`): on [5, 10, 20, 30], `remove(1)`
      returns 10.  The source runs `remove(1)` after that `add(40)`, on
      the overfull ring reading [40, 10, 20, 30, 40], where it happens to
      return 10 as well. */
  method BDequeDemo() returns (first: Result<int>, removed: Result<int>, size: int)
    ensures first == Ok(5) && removed == Ok(10) && size == 3
  {
    var d := FullBDeque();
    first := d.Get(0);
    removed := d.Remove(1);
    size := d.Size();
  }

  /** The demonstration's next step as written: `add(40)` on that full
      `BDeque` replaces element 0 (5) by 40 and raises the size to 5,
      above the capacity of 4. */
  method OverfullDemo() returns (before: int, after: int, size: int, capacity: int)
    ensures before == 5 && after == 40 && size == 5 && capacity == 4
  {
    var d := FullBDeque();
    before := d.a[Wrap(d.j, 0, d.a.Length)];
    var head;
    head, size := AddWhenFull(d.a, d.j, d.n, d.Contents, d.n, 40);
    after := d.a[Wrap(d.j, 0, d.a.Length)];
    capacity := d.a.Length;
  }

  /** An insertion near the head of the same full `BDeque`, as written:
      `add(1, 7)` leaves the four slots holding 5, 7, 10, 20 from the new
      head; 30, the last element, is lost. */
  method OverfullFrontDemo() returns (view: seq<int>, size: int)
    ensures view == [5, 7, 10, 20] && size == 5
  {
    var d := FullBDeque();
    ghost var s := d.Contents;
    var head;
    head, size := AddWhenFull(d.a, d.j, d.n, d.Contents, 1, 7);
    assert Insert(s, 1, 7) == [5, 7, 10, 20, 30];
    view := [d.a[Wrap(head, 0, 4)], d.a[Wrap(head, 1, 4)], d.a[Wrap(head, 2, 4)], d.a[Wrap(head, 3, 4)]];
  }
}
