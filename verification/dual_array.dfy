/** dualarraystack.cpp: an `ArrayStack`, a growable array list, and a
    `DualArrayDeque` built from two of them.  The front stack holds the
    first part of the list in reverse order, so that both ends of the list
    are at the top of a stack; after every insertion or removal `balance`
    rebuilds both stacks around the middle when one holds more than three
    times as many elements as the other.  Neither class checks indices,
    so every index is a precondition here. */
module DualArray {
  import opened Seqs
  import opened Capacity
  import opened Contiguous

  class ArrayStack<T(0)> {
    var a: array<T>
    var n: int
    var capacity: int
    /** The elements in use, `a[0 .. n-1]`. */
    ghost var Contents: seq<T>

    ghost predicate Valid()
      reads this, a
    {
      capacity == a.Length >= 1 && n == |Contents| && Prefix(a, Contents)
    }

    /** `ArrayStack(cap)`: empty, with `max(cap, 1)` slots. */
    constructor (cap: int)
      ensures Valid() && fresh(a) && capacity == Max(cap, 1) && Contents == []
    {
      capacity := Max(cap, 1);
      a := new T[Max(cap, 1)];
      n := 0;
      Contents := [];
    }

    /** The copy constructor: the same elements and capacity in a buffer
        of its own. */
    constructor Copy(other: ArrayStack<T>)
      requires other.Valid()
      ensures Valid() && fresh(a)
      ensures Contents == other.Contents && capacity == other.capacity
    {
      var b := CopyPrefix(other.a, other.n, other.capacity);
      a, n, capacity := b, other.n, other.capacity;
      Contents := other.Contents;
    }

    function Size(): (r: int)
      reads this, a
      requires Valid()
      ensures r == |Contents|
    {
      n
    }

    function Get(i: int): (r: T)
      reads this, a
      requires Valid() && 0 <= i < |Contents|
      ensures r == Contents[i]
    {
      a[i]
    }

    /** `set(i, x)`: replaces element `i` and returns the value it had. */
    method Set(i: int, x: T) returns (y: T)
      requires Valid() && 0 <= i < |Contents|
      modifies this, a
      ensures Valid() && a == old(a) && capacity == old(capacity)
      ensures y == old(Contents)[i] && Contents == old(Contents)[i := x]
    {
      y := a[i];
      a[i] := x;
      Contents := Contents[i := x];
    }

    /** `resize()`: the elements move to a fresh buffer of
        `max(2 * capacity, 1)` slots. */
    method Resize()
      requires Valid()
      modifies this
      ensures Valid() && Contents == old(Contents)
      ensures fresh(a) && capacity == Max(2 * old(capacity), 1)
    {
      var newCapacity := Max(2 * capacity, 1);
      var b := CopyPrefix(a, n, newCapacity);
      a, capacity := b, newCapacity;
    }

    /** `add(i, x)`: inserts `x` at index `i`, first growing a full
        buffer. */
    method Add(i: int, x: T)
      requires Valid() && 0 <= i <= |Contents|
      modifies this, a
      ensures Valid() && Contents == Insert(old(Contents), i, x)
      ensures old(n) == old(capacity) ==> fresh(a) && capacity == Max(2 * old(capacity), 1)
      ensures old(n) < old(capacity) ==> a == old(a) && capacity == old(capacity)
    {
      if n == capacity {
        Resize();
      }
      ShiftRight(a, i, n);
      a[i] := x;
      n := n + 1;
      Contents := Insert(Contents, i, x);
    }

    /** `remove(i)`: deletes and returns element `i`, closing the gap
        from the right; the capacity never changes. */
    method Remove(i: int) returns (y: T)
      requires Valid() && 0 <= i < |Contents|
      modifies this, a
      ensures Valid() && a == old(a) && capacity == old(capacity)
      ensures y == old(Contents)[i] && Contents == Delete(old(Contents), i)
    {
      y := a[i];
      ShiftLeft(a, i, n);
      n := n - 1;
      Contents := Delete(Contents, i);
    }

    /** The copy assignment operator: a no-op on itself; otherwise the
        same elements and capacity as `other` in a buffer of its own. */
    method AssignFrom(other: ArrayStack<T>)
      requires Valid() && other.Valid()
      modifies this
      ensures Valid() && Contents == old(other.Contents) && capacity == old(other.capacity)
      ensures other == this ==> a == old(a)
      ensures other != this ==> fresh(a)
    {
      if other != this {
        var b := CopyPrefix(other.a, other.n, other.capacity);
        a, n, capacity := b, other.n, other.capacity;
        Contents := other.Contents;
      }
    }
  }

  /** Neither stack holds more than three times as many elements as the
      other: the condition under which `balance` leaves the stacks alone. */
  predicate Balanced(fs: int, bs: int)
  {
    3 * fs >= bs && 3 * bs >= fs
  }

  /** Splitting `n >= 2` elements as `balance` does, `n / 2` to the front
      and the rest to the back, gives balanced stacks. */
  lemma SplitBalanced(n: int)
    requires n >= 2
    ensures Balanced(n / 2, n - n / 2)
  {
  }

  /** Inserting into the front stack at position `|f| - i` inserts at
      index `i` of the list `Reverse(f) + b`. */
  lemma FrontInsert<T>(f: seq<T>, b: seq<T>, i: int, x: T)
    requires 0 <= i <= |f|
    ensures Reverse(Insert(f, |f| - i, x)) + b == Insert(Reverse(f) + b, i, x)
  {
    ReverseInsert(f, i, x);
    InsertLeft(Reverse(f), b, i, x);
  }

  /** Inserting into the back stack at position `k` inserts at index
      `|f| + k` of the list `Reverse(f) + b`. */
  lemma BackInsert<T>(f: seq<T>, b: seq<T>, k: int, x: T)
    requires 0 <= k <= |b|
    ensures Reverse(f) + Insert(b, k, x) == Insert(Reverse(f) + b, |f| + k, x)
  {
    InsertRight(Reverse(f), b, k, x);
  }

  /** Deleting position `|f| - 1 - i` of the front stack deletes index
      `i` of the list `Reverse(f) + b`. */
  lemma FrontDelete<T>(f: seq<T>, b: seq<T>, i: int)
    requires 0 <= i < |f|
    ensures Reverse(Delete(f, |f| - 1 - i)) + b == Delete(Reverse(f) + b, i)
  {
    ReverseDelete(f, i);
    DeleteLeft(Reverse(f), b, i);
  }

  /** Deleting position `k` of the back stack deletes index `|f| + k` of
      the list `Reverse(f) + b`. */
  lemma BackDelete<T>(f: seq<T>, b: seq<T>, k: int)
    requires 0 <= k < |b|
    ensures Reverse(f) + Delete(b, k) == Delete(Reverse(f) + b, |f| + k)
  {
    DeleteRight(Reverse(f), b, k);
  }

  /** One more step of `ReversedPrefix`: element `i` goes below the
      reversed first `i` elements. */
  lemma PrefixStep<T>(c: seq<T>, i: int)
    requires 0 <= i < |c|
    ensures Reverse(c[..i + 1]) == Insert(Reverse(c[..i]), 0, c[i])
  {
    assert c[..i + 1] == c[..i] + [c[i]];
    ReverseSnoc(c[..i], c[i]);
    InsertAtStart(Reverse(c[..i]), c[i]);
  }

  /** One more step of `Suffix`: element `nf + i` goes on top of the
      elements `nf .. nf + i - 1`. */
  lemma SliceStep<T>(c: seq<T>, nf: int, i: int)
    requires 0 <= nf && 0 <= i && nf + i < |c|
    ensures c[nf..nf + i + 1] == Insert(c[nf..nf + i], i, c[nf + i])
  {
    assert c[nf..nf + i + 1] == c[nf..nf + i] + [c[nf + i]];
    InsertAtEnd(c[nf..nf + i], c[nf + i]);
  }

  class DualArrayDeque<T(0)> {
    const front: ArrayStack<T>
    const back: ArrayStack<T>

    ghost predicate Valid()
      reads front, back, front.a, back.a
    {
      front != back && front.a != back.a && front.Valid() && back.Valid()
    }

    /** The list: the front stack read from its top down, then the back
        stack from its bottom up. */
    ghost function Contents(): seq<T>
      reads front, back
    {
      Reverse(front.Contents) + back.Contents
    }

    constructor ()
      ensures Valid() && Contents() == []
      ensures fresh(front) && fresh(back) && fresh(front.a) && fresh(back.a)
    {
      front := new ArrayStack(1);
      back := new ArrayStack(1);
    }

    /** `size()`: the two stacks together. */
    function Size(): (r: int)
      reads front, back, front.a, back.a
      requires Valid()
      ensures r == |Contents()|
    {
      front.n + back.n
    }

    /** `get(i)`: index `i < fs` is element `fs - i - 1` of the front
        stack, any other index is element `i - fs` of the back stack. */
    function Get(i: int): (r: T)
      reads front, back, front.a, back.a
      requires Valid() && 0 <= i < |Contents()|
      ensures r == Contents()[i]
    {
      if i < front.n then
        ReverseAt(front.Contents, i);
        front.Get(front.n - i - 1)
      else
        back.Get(i - front.n)
    }

    /** `set(i, x)`: replaces element `i`, found as `get` finds it, and
        returns the value it had. */
    method Set(i: int, x: T) returns (y: T)
      requires Valid() && 0 <= i < |Contents()|
      modifies front, back, front.a, back.a
      ensures Valid() && front.a == old(front.a) && back.a == old(back.a)
      ensures y == old(Contents())[i] && Contents() == old(Contents())[i := x]
    {
      ghost var f, b := front.Contents, back.Contents;
      if i < front.n {
        ReverseAt(f, i);
        y := front.Set(front.n - i - 1, x);
        ReverseUpdate(f, i, x);
      } else {
        y := back.Set(i - front.n, x);
      }
    }

    /** `add(i, x)`: inserts into the front stack (at its position
        `fs - i`) when `i < fs`, otherwise into the back stack, then
        rebalances. */
    method Add(i: int, x: T)
      requires Valid() && 0 <= i <= |Contents()|
      modifies front, back, front.a, back.a
      ensures Valid() && Contents() == Insert(old(Contents()), i, x)
      ensures front.a == old(front.a) || fresh(front.a)
      ensures back.a == old(back.a) || fresh(back.a)
      ensures |Contents()| >= 2 ==> Balanced(|front.Contents|, |back.Contents|)
    {
      ghost var f, b := front.Contents, back.Contents;
      if i < front.n {
        front.Add(front.n - i, x);
        FrontInsert(f, b, i, x);
      } else {
        back.Add(i - front.n, x);
        BackInsert(f, b, i - |f|, x);
      }
      Balance();
    }

    /** `remove(i)`: deletes and returns element `i`, from the stack that
        holds it, then rebalances. */
    method Remove(i: int) returns (y: T)
      requires Valid() && 0 <= i < |Contents()|
      modifies front, back, front.a, back.a
      ensures Valid() && y == old(Contents())[i] && Contents() == Delete(old(Contents()), i)
      ensures front.a == old(front.a) || fresh(front.a)
      ensures back.a == old(back.a) || fresh(back.a)
      ensures |Contents()| >= 2 ==> Balanced(|front.Contents|, |back.Contents|)
    {
      y := Take(i);
      Balance();
    }

    /** The part of `remove(i)` before `balance()`: deletes element `i`
        from the stack that holds it. */
    method Take(i: int) returns (y: T)
      requires Valid() && 0 <= i < |Contents()|
      modifies front, back, front.a, back.a
      ensures Valid() && y == old(Contents())[i] && Contents() == Delete(old(Contents()), i)
      ensures front.a == old(front.a) && back.a == old(back.a)
    {
      ghost var f, b := front.Contents, back.Contents;
      if i < front.n {
        ReverseAt(f, i);
        y := front.Remove(front.n - i - 1);
        FrontDelete(f, b, i);
      } else {
        y := back.Remove(i - front.n);
        BackDelete(f, b, i - |f|);
      }
    }

    /** The first `nf` elements of the list, pushed one by one at the
        bottom of a fresh stack of `max(2 * nf, 1)` slots, so that they
        end up in reverse order. */
    method ReversedPrefix(nf: int) returns (s: ArrayStack<T>)
      requires Valid() && 0 <= nf <= |Contents()|
      ensures fresh(s) && fresh(s.a) && s.Valid()
      ensures s.Contents == Reverse(Contents()[..nf])
    {
      ghost var c := Contents();
      s := new ArrayStack(Max(2 * nf, 1));
      var i := 0;
      while i < nf
        invariant 0 <= i <= nf
        invariant fresh(s) && fresh(s.a) && s.Valid()
        invariant Valid() && Contents() == c
        invariant s.Contents == Reverse(c[..i])
      {
        var y := Get(i);
        s.Add(0, y);
        PrefixStep(c, i);
        i := i + 1;
      }
    }

    /** The list from index `nf` on, in order, in a fresh stack of
        `max(2 * nb, 1)` slots. */
    method Suffix(nf: int) returns (s: ArrayStack<T>)
      requires Valid() && 0 <= nf <= |Contents()|
      ensures fresh(s) && fresh(s.a) && s.Valid()
      ensures s.Contents == Contents()[nf..]
    {
      ghost var c := Contents();
      var nb := Size() - nf;
      s := new ArrayStack(Max(2 * nb, 1));
      var i := 0;
      while i < nb
        invariant 0 <= i <= nb
        invariant fresh(s) && fresh(s.a) && s.Valid()
        invariant Valid() && Contents() == c
        invariant s.Contents == c[nf..nf + i]
      {
        var y := Get(nf + i);
        s.Add(i, y);
        SliceStep(c, nf, i);
        i := i + 1;
      }
      assert c[nf..nf + nb] == c[nf..];
    }

    /** `balance()`: when one stack holds more than three times as many
        elements as the other, rebuilds them with `n / 2` elements in
        front and the rest at the back; the list does not change. */
    method Balance()
      requires Valid()
      modifies front, back
      ensures Valid() && Contents() == old(Contents())
      ensures front.a == old(front.a) || fresh(front.a)
      ensures back.a == old(back.a) || fresh(back.a)
      ensures Balanced(old(|front.Contents|), old(|back.Contents|)) ==>
        front.Contents == old(front.Contents) && back.Contents == old(back.Contents)
      ensures !Balanced(old(|front.Contents|), old(|back.Contents|)) ==>
        |front.Contents| == |Contents()| / 2 && |back.Contents| == |Contents()| - |Contents()| / 2
      ensures |Contents()| >= 2 ==> Balanced(|front.Contents|, |back.Contents|)
    {
      if 3 * front.n < back.n || 3 * back.n < front.n {
        ghost var c := Contents();
        var nf := Size() / 2;
        var newFront := ReversedPrefix(nf);
        var newBack := Suffix(nf);
        front.AssignFrom(newFront);
        back.AssignFrom(newBack);
        ReverseReverse(c[..nf]);
        assert front.Contents == Reverse(c[..nf]) && back.Contents == c[nf..];
        assert c[..nf] + c[nf..] == c;
        if |c| >= 2 {
          SplitBalanced(|c|);
        }
      }
    }
  }

  /** The three insertions of the source's demonstration. */
  method BuildDemo() returns (dq: DualArrayDeque<int>)
    ensures fresh(dq) && fresh(dq.front) && fresh(dq.back) && fresh(dq.front.a) && fresh(dq.back.a)
    ensures dq.Valid() && dq.Contents() == [10, 15, 20]
  {
    dq := new DualArrayDeque<int>();
    dq.Add(0, 10);
    assert dq.Contents() == [10];
    dq.Add(1, 20);
    assert dq.Contents() == [10, 20];
    dq.Add(1, 15);
  }

  /** The source's demonstration: `add(0, 10)`, `add(1, 20)`,
      `add(1, 15)` give [10, 15, 20]; `set(1, 16)` returns 15; `remove(0)`
      returns 10, leaving [16, 20]. */
  method DequeDemo() returns (e0: int, e1: int, e2: int, replaced: int, removed: int, size: int, f0: int, f1: int)
    ensures e0 == 10 && e1 == 15 && e2 == 20
    ensures replaced == 15 && removed == 10
    ensures size == 2 && f0 == 16 && f1 == 20
  {
    var dq := BuildDemo();
    e0, e1, e2 := dq.Get(0), dq.Get(1), dq.Get(2);
    replaced := dq.Set(1, 16);
    assert dq.Contents() == [10, 16, 20];
    removed := dq.Remove(0);
    assert dq.Contents() == [16, 20];
    size, f0, f1 := dq.Size(), dq.Get(0), dq.Get(1);
  }
}
