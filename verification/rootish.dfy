/** The `RootishArray` of rootisharray.cpp: a list stored in blocks of
    sizes 1, 2, 3, ...; element `i` lives in block `b = i2b(i)` at slot
    `i - b(b+1)/2`.  `add` grows one block when every slot is in use and
    `remove` drops trailing blocks while two fewer blocks would still
    hold every element. */
module Rootish {
  import opened Errors
  import opened Seqs

  /** The slots in blocks `0 .. r-1`, written as the source writes it:
      `r * (r + 1) / 2` (never negative for an integer `r`). */
  function Tri(r: int): int
  {
    r * (r + 1) / 2
  }

  /** Block `r` adds `r + 1` slots. */
  lemma TriNext(r: int)
    ensures Tri(r + 1) == Tri(r) + r + 1
  {
    assert (r + 1) * (r + 2) == r * (r + 1) + 2 * (r + 1);
  }

  lemma {:induction false} TriMono(a: int, b: int)
    requires -1 <= a <= b
    ensures Tri(a) <= Tri(b)
    decreases b - a
  {
    if a < b {
      TriNext(b - 1);
      TriMono(a, b - 1);
    }
  }

  /** The block holding index `i`, searched for from block `b` on. */
  function I2BFrom(i: int, b: nat): (c: nat)
    requires Tri(b) <= i
    ensures c >= b && Tri(c) <= i < Tri(c + 1)
    decreases i - Tri(b)
  {
    TriNext(b);
    if i < Tri(b + 1) then b else I2BFrom(i, b + 1)
  }

  /** `i2b(i)`: the block `b` with `b(b+1)/2 <= i < (b+1)(b+2)/2`. */
  function I2B(i: int): (b: nat)
    requires i >= 0
    ensures Tri(b) <= i < Tri(b + 1)
    ensures 0 <= i - Tri(b) <= b
  {
    TriNext(I2BFrom(i, 0));
    I2BFrom(i, 0)
  }

  /** Only one block brackets an index, so the bracket determines
      `i2b` exactly. */
  lemma I2BUnique(i: int, b: int)
    requires 0 <= b && Tri(b) <= i < Tri(b + 1)
    ensures I2B(i) == b
  {
    var c := I2B(i);
    if c < b {
      TriMono(c + 1, b);
    } else if b < c {
      TriMono(b + 1, c);
    }
  }

  /** An index below the slot count of `r` blocks lies in one of them. */
  lemma BlockExists(i: int, r: int)
    requires 0 <= i < Tri(r) && r >= 0
    ensures I2B(i) < r
  {
    if I2B(i) >= r {
      TriMono(r, I2B(i));
    }
  }

  /** The number of slots in a sequence of blocks. */
  function SlotCount<T>(bs: seq<array<T>>): nat
  {
    if bs == [] then 0 else SlotCount(bs[..|bs| - 1]) + bs[|bs| - 1].Length
  }

  /** Blocks of sizes 1, 2, ..., r hold `r(r+1)/2` slots. */
  lemma {:induction false} SlotCountTri<T>(bs: seq<array<T>>)
    requires forall b :: 0 <= b < |bs| ==> bs[b].Length == b + 1
    ensures SlotCount(bs) == Tri(|bs|)
  {
    if bs != [] {
      SlotCountTri(bs[..|bs| - 1]);
      TriNext(|bs| - 1);
    }
  }

  class RootishArray<T(0)> {
    var blocks: seq<array<T>>
    var n: int
    ghost var Contents: seq<T>

    /** Block `b` has `b + 1` slots. */
    ghost predicate Sized()
      reads this`blocks
    {
      forall b :: 0 <= b < |blocks| ==> blocks[b].Length == b + 1
    }

    /** The blocks hold at least `n` slots. */
    ghost predicate Shaped()
      reads this
    {
      Sized() && 0 <= n <= Tri(|blocks|)
    }

    /** The value in the slot of index `k`. */
    function At(k: int): T
      reads this`blocks, blocks
      requires Sized() && 0 <= k < Tri(|blocks|)
    {
      BlockExists(k, |blocks|);
      blocks[I2B(k)][k - Tri(I2B(k))]
    }

    ghost predicate Valid()
      reads this, blocks
    {
      Shaped() && n == |Contents| &&
      forall k :: 0 <= k < n ==> At(k) == Contents[k]
    }

    /** `RootishArray()`: empty, with no blocks. */
    constructor ()
      ensures Valid() && Contents == [] && blocks == []
    {
      blocks, n := [], 0;
      Contents := [];
    }

    function Size(): (r: int)
      reads this, blocks
      requires Valid()
      ensures r == |Contents|
    {
      n
    }

    function Empty(): (r: bool)
      reads this, blocks
      requires Valid()
      ensures r <==> Contents == []
    {
      n == 0
    }

    /** The slots of the blocks number `r(r+1)/2`, and every element has
        one. */
    lemma Capacity()
      requires Valid()
      ensures SlotCount(blocks) == Tri(|blocks|) >= |Contents|
    {
      SlotCountTri(blocks);
    }

    /** Stores `x` in the slot of index `k`; no other slot changes. */
    method Put(k: int, x: T)
      requires Sized() && 0 <= k < Tri(|blocks|)
      modifies blocks
      ensures forall m :: 0 <= m < Tri(|blocks|) ==> At(m) == if m == k then x else old(At(m))
    {
      BlockExists(k, |blocks|);
      var b := I2B(k);
      blocks[b][k - Tri(b)] := x;
      forall m | 0 <= m < Tri(|blocks|)
        ensures At(m) == if m == k then x else old(At(m))
      {
        BlockExists(m, |blocks|);
      }
    }

    /** `get(i)`: element `i`, or `out_of_range` outside `[0, n)`. */
    function Get(i: int): (r: Result<T>)
      reads this, blocks
      requires Valid()
      ensures r.Ok? <==> 0 <= i < |Contents|
      ensures r.Ok? ==> r.value == Contents[i]
      ensures r.Err? ==> r.error == OutOfRange
    {
      if i < 0 || i >= n then Err(OutOfRange) else Ok(At(i))
    }

    /** `set(i, x)`: replaces element `i` and returns the value it had, or
        fails with `out_of_range` outside `[0, n)` and changes nothing. */
    method Set(i: int, x: T) returns (r: Result<T>)
      requires Valid()
      modifies this, blocks
      ensures Valid() && blocks == old(blocks)
      ensures r.Ok? <==> 0 <= i < old(|Contents|)
      ensures r.Ok? ==> r.value == old(Contents)[i] && Contents == old(Contents)[i := x]
      ensures r.Err? ==> r.error == OutOfRange && Contents == old(Contents)
    {
      if i < 0 || i >= n {
        return Err(OutOfRange);
      }
      var y := At(i);
      Put(i, x);
      Contents := Contents[i := x];
      r := Ok(y);
    }

    /** `grow()`: appends a fresh block of `|blocks| + 1` slots. */
    method Grow()
      requires Valid()
      modifies this
      ensures Valid() && Contents == old(Contents)
      ensures |blocks| == old(|blocks|) + 1 && blocks[..old(|blocks|)] == old(blocks)
      ensures fresh(blocks[|blocks| - 1])
      ensures Tri(|blocks|) == Tri(old(|blocks|)) + old(|blocks|) + 1
    {
      var block := new T[|blocks| + 1];
      TriNext(|blocks|);
      TriMono(|blocks|, |blocks| + 1);
      blocks := blocks + [block];
      assert blocks[..|blocks| - 1] == old(blocks);
      forall k | 0 <= k < n ensures At(k) == Contents[k] {
        BlockExists(k, |blocks| - 1);
      }
    }

    /** `shrink()`: drops the last block while the blocks before the
        last two would still hold every element. */
    method Shrink()
      requires Valid()
      modifies this
      ensures Valid() && Contents == old(Contents)
      ensures |blocks| <= old(|blocks|) && blocks == old(blocks)[..|blocks|]
      ensures |blocks| == 0 || Tri(|blocks| - 2) < |Contents|
      ensures |blocks| < old(|blocks|) ==> Tri(|blocks| - 1) >= |Contents|
    {
      var r := |blocks|;
      while r > 0 && Tri(r - 2) >= n
        invariant 0 <= r == |blocks| <= old(|blocks|)
        invariant blocks == old(blocks)[..r]
        invariant r < old(|blocks|) ==> Tri(r - 1) >= n
        invariant Valid() && Contents == old(Contents)
      {
        TriNext(r - 2);
        TriMono(r - 2, r - 1);
        ghost var before := blocks;
        blocks := blocks[..r - 1];
        forall k | 0 <= k < n ensures At(k) == Contents[k] {
          BlockExists(k, r - 1);
          assert blocks[I2B(k)] == before[I2B(k)];
        }
        r := r - 1;
      }
    }

    /** The loop of `add`: `set(j, get(j - 1))` for `j` from `n - 1` down
        to `i + 1`, moving elements `i .. n-2` one index up. */
    method ShiftUp(i: int, ghost s: seq<T>)
      requires Shaped() && 0 <= i < n && n == |s| + 1
      requires forall k :: 0 <= k < n - 1 ==> At(k) == s[k]
      modifies blocks
      ensures forall k :: 0 <= k < i ==> At(k) == s[k]
      ensures forall k :: i < k < n ==> At(k) == s[k - 1]
    {
      var j := n - 1;
      while j > i
        invariant i <= j <= n - 1
        invariant forall k :: 0 <= k < j ==> At(k) == s[k]
        invariant forall k :: j < k < n ==> At(k) == s[k - 1]
      {
        Put(j, At(j - 1));
        j := j - 1;
      }
    }

    /** The loop of `remove`: `set(j, get(j + 1))` for `j` from `i` up to
        `n - 2`, moving elements `i+1 .. n-1` one index down. */
    method ShiftDown(i: int, ghost s: seq<T>)
      requires Shaped() && 0 <= i < n && n == |s|
      requires forall k :: 0 <= k < n ==> At(k) == s[k]
      modifies blocks
      ensures forall k :: 0 <= k < i ==> At(k) == s[k]
      ensures forall k :: i <= k < n - 1 ==> At(k) == s[k + 1]
    {
      var j := i;
      while j < n - 1
        invariant i <= j <= n - 1
        invariant forall k :: 0 <= k < i ==> At(k) == s[k]
        invariant forall k :: i <= k < j ==> At(k) == s[k + 1]
        invariant forall k :: j <= k < n ==> At(k) == s[k]
      {
        Put(j, At(j + 1));
        j := j + 1;
      }
    }

    /** `add(i, x)`: fails with `out_of_range` outside `[0, n]`; otherwise
        grows a full array by one block and shifts elements `i ..` one
        index up, from the last one down, before storing `x`. */
    method Add(i: int, x: T) returns (r: Status)
      requires Valid()
      modifies this, blocks
      ensures Valid()
      ensures r.Done? <==> 0 <= i <= old(|Contents|)
      ensures r.Done? ==> Contents == Insert(old(Contents), i, x)
      ensures r.Done? ==> |blocks| == if Tri(old(|blocks|)) < old(|Contents|) + 1 then old(|blocks|) + 1 else old(|blocks|)
      ensures r.Done? ==> blocks[..old(|blocks|)] == old(blocks)
      ensures |blocks| > old(|blocks|) ==> fresh(blocks[|blocks| - 1])
      ensures r.Failed? ==> r.error == OutOfRange && Contents == old(Contents) && blocks == old(blocks)
    {
      if i < 0 || i > n {
        return Failed(OutOfRange);
      }
      var rb := |blocks|;
      if Tri(rb) < n + 1 {
        Grow();
      }
      InsertAt(i, x);
      r := Done;
    }

    /** The part of `add(i, x)` after the growth check: `n++`, the shift
        loop and `set(i, x)`, in a structure with a free slot. */
    method InsertAt(i: int, x: T)
      requires Valid() && 0 <= i <= |Contents| < Tri(|blocks|)
      modifies this, blocks
      ensures Valid() && Contents == Insert(old(Contents), i, x) && blocks == old(blocks)
    {
      ghost var s := Contents;
      n := n + 1;
      ShiftUp(i, s);
      Put(i, x);
      Contents := Insert(s, i, x);
      forall k | 0 <= k < n ensures At(k) == Contents[k] {
        if k < i {
          assert At(k) == s[k];
        } else if k > i {
          assert At(k) == s[k - 1];
        }
      }
    }

    /** `remove(i)`: fails with `out_of_range` outside `[0, n)`;
        otherwise shifts elements `i+1 ..` one index down and shrinks. */
    method Remove(i: int) returns (r: Result<T>)
      requires Valid()
      modifies this, blocks
      ensures Valid()
      ensures r.Ok? <==> 0 <= i < old(|Contents|)
      ensures r.Ok? ==> r.value == old(Contents)[i] && Contents == Delete(old(Contents), i)
      ensures r.Ok? ==> |blocks| == 0 || Tri(|blocks| - 2) < |Contents|
      ensures r.Ok? ==> |blocks| <= old(|blocks|) && blocks == old(blocks)[..|blocks|]
      ensures r.Ok? && |blocks| < old(|blocks|) ==> Tri(|blocks| - 1) >= |Contents|
      ensures r.Ok? && (old(|blocks|) == 0 || Tri(old(|blocks|) - 2) < |Contents|) ==> blocks == old(blocks)
      ensures r.Err? ==> r.error == OutOfRange && Contents == old(Contents) && blocks == old(blocks)
    {
      if i < 0 || i >= n {
        return Err(OutOfRange);
      }
      var x := At(i);
      ghost var s := Contents;
      ShiftDown(i, s);
      n := n - 1;
      Contents := Delete(s, i);
      forall k | 0 <= k < n ensures At(k) == Contents[k] {
        if k < i {
          assert At(k) == s[k];
        } else {
          assert At(k) == s[k + 1];
        }
      }
      TriMono(n, n + 1);
      var rb := |blocks|;
      if Tri(rb - 2) >= n {
        Shrink();
      }
      r := Ok(x);
    }

    /** `push_back(x)`, which is `add(n, x)`. */
    method PushBack(x: T)
      requires Valid()
      modifies this, blocks
      ensures Valid() && Contents == old(Contents) + [x]
      ensures |blocks| == if Tri(old(|blocks|)) < old(|Contents|) + 1 then old(|blocks|) + 1 else old(|blocks|)
      ensures blocks[..old(|blocks|)] == old(blocks)
      ensures |blocks| > old(|blocks|) ==> fresh(blocks[|blocks| - 1])
    {
      var r := Add(n, x);
      InsertAtEnd(old(Contents), x);
    }

    /** `pop_back()`: `remove(n - 1)`, or a `runtime_error` when empty. */
    method PopBack() returns (r: Result<T>)
      requires Valid()
      modifies this, blocks
      ensures Valid()
      ensures r.Ok? <==> old(|Contents|) > 0
      ensures r.Ok? ==> r.value == old(Contents)[|old(Contents)| - 1] && Contents == old(Contents)[..|old(Contents)| - 1]
      ensures r.Err? ==> r.error == EmptyContainer && Contents == old(Contents)
    {
      if n == 0 {
        return Err(EmptyContainer);
      }
      r := Remove(n - 1);
    }

    /** `clear()`: no blocks and no elements. */
    method Clear()
      modifies this
      ensures Valid() && Contents == [] && blocks == []
    {
      blocks, n := [], 0;
      Contents := [];
    }
  }

  /** `r` is the fewest blocks that hold `k` elements. */
  predicate BlockCountFits(r: int, k: int)
  {
    if k == 0 then r == 0 else r >= 1 && Tri(r - 1) < k <= Tri(r)
  }

  /** Starting from no blocks, `push_back` keeps the fewest blocks that
      hold the elements. */
  lemma BlockCountStep(r: int, k: int)
    requires k >= 0 && BlockCountFits(r, k)
    ensures BlockCountFits(if Tri(r) < k + 1 then r + 1 else r, k + 1)
  {
    TriNext(r);
  }

  /** Ten elements need exactly four blocks. */
  lemma TenInFour(r: int)
    requires BlockCountFits(r, 10)
    ensures r == 4
  {
    if r >= 5 {
      TriMono(4, r - 1);
    } else if r <= 3 {
      TriMono(r, 3);
    }
  }

  /** The first step of the source's demonstration: `push_back` of 0,
      10, ..., 90 into an empty array. */
  method PushTens() returns (ra: RootishArray<int>)
    ensures fresh(ra) && ra.Valid() && |ra.Contents| == 10
    ensures forall m :: 0 <= m < 10 ==> ra.Contents[m] == 10 * m
    ensures BlockCountFits(|ra.blocks|, 10)
    ensures forall b :: 0 <= b < |ra.blocks| ==> fresh(ra.blocks[b])
  {
    ra := new RootishArray<int>();
    var k := 0;
    while k < 10
      invariant 0 <= k <= 10
      invariant ra.Valid() && |ra.Contents| == k
      invariant forall m :: 0 <= m < k ==> ra.Contents[m] == 10 * m
      invariant BlockCountFits(|ra.blocks|, k)
      invariant fresh(ra) && forall b :: 0 <= b < |ra.blocks| ==> fresh(ra.blocks[b])
    {
      BlockCountStep(|ra.blocks|, k);
      ra.PushBack(10 * k);
      k := k + 1;
    }
  }

  /** The source's demonstration: the ten elements fill four blocks;
      `get(7)` is 70; `add(3, 999)` grows a fifth block; `remove(5)`
      returns 40 and keeps the five blocks. */
  method RootishDemo() returns (got: Result<int>, blocksBefore: int, blocksAfter: int, removed: Result<int>, size: int)
    ensures got == Ok(70) && blocksBefore == 4 && removed == Ok(40) && blocksAfter == 5 && size == 10
  {
    var ra := PushTens();
    blocksBefore := |ra.blocks|;
    TenInFour(blocksBefore);
    got := ra.Get(7);
    ghost var c := ra.Contents;
    var added := ra.Add(3, 999);
    assert ra.Contents[5] == c[4] == 40;
    removed := ra.Remove(5);
    blocksAfter, size := |ra.blocks|, ra.Size();
  }
}
