/** The abstract view of a chain of blocks: the list a chain stands for
    is the concatenation of its blocks' contents, first block first. */
module Blocks {
  import opened Seqs

  /** The concatenation of the blocks, in chain order. */
  function Flatten<T>(bs: seq<seq<T>>): seq<T>
  {
    if |bs| == 0 then [] else bs[0] + Flatten(bs[1..])
  }

  /** The sum of the block sizes. */
  function TotalSize<T>(bs: seq<seq<T>>): nat
  {
    if |bs| == 0 then 0 else |bs[0]| + TotalSize(bs[1..])
  }

  /** The global index of the first element of block `k`. */
  function Offset<T>(bs: seq<seq<T>>, k: int): (r: nat)
    requires 0 <= k <= |bs|
  {
    |Flatten(bs[..k])|
  }

  /** The list holds exactly as many elements as the blocks together. */
  lemma {:induction false} FlattenSize<T>(bs: seq<seq<T>>)
    ensures |Flatten(bs)| == TotalSize(bs)
  {
    if bs != [] {
      FlattenSize(bs[1..]);
    }
  }

  lemma {:induction false} FlattenConcat<T>(xs: seq<seq<T>>, ys: seq<seq<T>>)
    ensures Flatten(xs + ys) == Flatten(xs) + Flatten(ys)
  {
    if xs == [] {
      assert xs + ys == ys;
    } else {
      assert (xs + ys)[1..] == xs[1..] + ys;
      FlattenConcat(xs[1..], ys);
    }
  }

  /** Block `k` sits between the blocks before it and the blocks after it. */
  lemma FlattenSplit<T>(bs: seq<seq<T>>, k: int)
    requires 0 <= k < |bs|
    ensures Flatten(bs) == Flatten(bs[..k]) + bs[k] + Flatten(bs[k + 1..])
  {
    var tail := bs[k..];
    assert tail[0] == bs[k] && tail[1..] == bs[k + 1..];
    assert Flatten(tail) == bs[k] + Flatten(bs[k + 1..]);
    assert bs == bs[..k] + tail;
    FlattenConcat(bs[..k], tail);
  }

  /** The offsets grow by one block size per block. */
  lemma OffsetNext<T>(bs: seq<seq<T>>, k: int)
    requires 0 <= k < |bs|
    ensures Offset(bs, k + 1) == Offset(bs, k) + |bs[k]|
  {
    assert bs[..k + 1] == bs[..k] + [bs[k]];
    FlattenConcat(bs[..k], [bs[k]]);
    assert [bs[k]][1..] == [];
  }

  lemma {:induction false} OffsetMono<T>(bs: seq<seq<T>>, k: int, l: int)
    requires 0 <= k <= l <= |bs|
    ensures Offset(bs, k) <= Offset(bs, l)
    decreases l - k
  {
    if k < l {
      OffsetNext(bs, l - 1);
      OffsetMono(bs, k, l - 1);
    }
  }

  lemma OffsetLast<T>(bs: seq<seq<T>>)
    ensures Offset(bs, |bs|) == |Flatten(bs)|
  {
    assert bs[..|bs|] == bs;
  }

  /** Element `j` of block `k` is element `Offset(k) + j` of the list. */
  lemma FlattenAt<T>(bs: seq<seq<T>>, k: int, j: int)
    requires 0 <= k < |bs| && 0 <= j < |bs[k]|
    ensures Offset(bs, k) + j < |Flatten(bs)|
    ensures Flatten(bs)[Offset(bs, k) + j] == bs[k][j]
  {
    FlattenSplit(bs, k);
  }

  /** A global position falls in exactly one block. */
  lemma LocationUnique<T>(bs: seq<seq<T>>, k1: int, j1: int, k2: int, j2: int)
    requires 0 <= k1 < |bs| && 0 <= j1 < |bs[k1]|
    requires 0 <= k2 < |bs| && 0 <= j2 < |bs[k2]|
    requires Offset(bs, k1) + j1 == Offset(bs, k2) + j2
    ensures k1 == k2 && j1 == j2
  {
    if k1 < k2 {
      OffsetNext(bs, k1);
      OffsetMono(bs, k1 + 1, k2);
    } else if k2 < k1 {
      OffsetNext(bs, k2);
      OffsetMono(bs, k2 + 1, k1);
    }
  }

  /** Replacing block `k` by `s` replaces its part of the list. */
  lemma FlattenUpdate<T>(bs: seq<seq<T>>, k: int, s: seq<T>)
    requires 0 <= k < |bs|
    ensures Flatten(bs[k := s]) == Flatten(bs[..k]) + s + Flatten(bs[k + 1..])
  {
    FlattenSplit(bs[k := s], k);
    assert bs[k := s][..k] == bs[..k];
    assert bs[k := s][k + 1..] == bs[k + 1..];
  }

  /** Overwriting element `j` of block `k` overwrites the list at the
      matching global index. */
  lemma FlattenSet<T>(bs: seq<seq<T>>, k: int, j: int, x: T)
    requires 0 <= k < |bs| && 0 <= j < |bs[k]|
    ensures Offset(bs, k) + j < |Flatten(bs)|
    ensures Flatten(bs[k := bs[k][j := x]]) == Flatten(bs)[Offset(bs, k) + j := x]
  {
    FlattenSplit(bs, k);
    var p, q := Flatten(bs[..k]), Flatten(bs[k + 1..]);
    calc {
      Flatten(bs[k := bs[k][j := x]]);
    == { FlattenUpdate(bs, k, bs[k][j := x]); }
      p + bs[k][j := x] + q;
    == { assert |p + bs[k]| == |p| + |bs[k]|; }
      (p + bs[k] + q)[|p| + j := x];
    }
  }

  /** Blocks `k` and `k + 1` sit between the blocks before and after them. */
  lemma FlattenAround<T>(bs: seq<seq<T>>, k: int)
    requires 0 <= k < |bs| - 1
    ensures Flatten(bs) == Flatten(bs[..k]) + ((bs[k] + bs[k + 1]) + Flatten(bs[k + 2..]))
  {
    var rest := bs[k + 1..];
    assert rest[0] == bs[k + 1] && rest[1..] == bs[k + 2..];
    calc {
      Flatten(bs);
    == { FlattenSplit(bs, k); }
      Flatten(bs[..k]) + bs[k] + Flatten(rest);
    == { assert Flatten(rest) == bs[k + 1] + Flatten(bs[k + 2..]); }
      Flatten(bs[..k]) + bs[k] + (bs[k + 1] + Flatten(bs[k + 2..]));
    }
  }

  /** Moving elements across the boundary between blocks `k` and `k + 1`
      leaves the list unchanged. */
  lemma FlattenShiftBoundary<T>(bs: seq<seq<T>>, k: int, x: seq<T>, y: seq<T>)
    requires 0 <= k < |bs| - 1
    requires x + y == bs[k] + bs[k + 1]
    ensures Flatten(bs[k := x][k + 1 := y]) == Flatten(bs)
  {
    var cs := bs[k := x][k + 1 := y];
    FlattenAround(cs, k);
    FlattenAround(bs, k);
    assert cs[..k] == bs[..k];
    assert cs[k + 2..] == bs[k + 2..];
  }

  /** Linking in an empty block leaves the list unchanged. */
  lemma FlattenInsertEmpty<T>(bs: seq<seq<T>>, k: int)
    requires 0 <= k <= |bs|
    ensures Flatten(bs[..k] + [[]] + bs[k..]) == Flatten(bs)
  {
    var e: seq<seq<T>> := [[]];
    calc {
      Flatten(bs[..k] + e + bs[k..]);
    == { FlattenConcat(bs[..k] + e, bs[k..]); }
      Flatten(bs[..k] + e) + Flatten(bs[k..]);
    == { FlattenAppendBlock(bs[..k], []); }
      Flatten(bs[..k]) + [] + Flatten(bs[k..]);
    == { assert Flatten(bs[..k]) + [] == Flatten(bs[..k]); }
      Flatten(bs[..k]) + Flatten(bs[k..]);
    == { FlattenConcat(bs[..k], bs[k..]); assert bs[..k] + bs[k..] == bs; }
      Flatten(bs);
    }
  }

  /** Unlinking an empty block leaves the list unchanged. */
  lemma FlattenRemoveEmpty<T>(bs: seq<seq<T>>, k: int)
    requires 0 <= k < |bs| && bs[k] == []
    ensures Flatten(bs[..k] + bs[k + 1..]) == Flatten(bs)
  {
    calc {
      Flatten(bs[..k] + bs[k + 1..]);
    == { FlattenConcat(bs[..k], bs[k + 1..]); }
      Flatten(bs[..k]) + Flatten(bs[k + 1..]);
    == { assert bs[k] == []; }
      Flatten(bs[..k]) + bs[k] + Flatten(bs[k + 1..]);
    == { FlattenSplit(bs, k); }
      Flatten(bs);
    }
  }

  /** Inserting into block `k` inserts into the list at the matching
      global index. */
  lemma FlattenInsert<T>(bs: seq<seq<T>>, k: int, j: int, x: T)
    requires 0 <= k < |bs| && 0 <= j <= |bs[k]|
    ensures Offset(bs, k) + j <= |Flatten(bs)|
    ensures Flatten(bs[k := Insert(bs[k], j, x)]) == Insert(Flatten(bs), Offset(bs, k) + j, x)
  {
    FlattenSplit(bs, k);
    calc {
      Flatten(bs[k := Insert(bs[k], j, x)]);
    == { FlattenUpdate(bs, k, Insert(bs[k], j, x)); }
      Flatten(bs[..k]) + Insert(bs[k], j, x) + Flatten(bs[k + 1..]);
    == { InsertInside(Flatten(bs[..k]), bs[k], Flatten(bs[k + 1..]), j, x); }
      Insert(Flatten(bs[..k]) + bs[k] + Flatten(bs[k + 1..]), Offset(bs, k) + j, x);
    }
  }

  /** Deleting from block `k` deletes from the list at the matching
      global index. */
  lemma FlattenDelete<T>(bs: seq<seq<T>>, k: int, j: int)
    requires 0 <= k < |bs| && 0 <= j < |bs[k]|
    ensures Offset(bs, k) + j < |Flatten(bs)|
    ensures Flatten(bs[k := Delete(bs[k], j)]) == Delete(Flatten(bs), Offset(bs, k) + j)
  {
    FlattenSplit(bs, k);
    calc {
      Flatten(bs[k := Delete(bs[k], j)]);
    == { FlattenUpdate(bs, k, Delete(bs[k], j)); }
      Flatten(bs[..k]) + Delete(bs[k], j) + Flatten(bs[k + 1..]);
    == { DeleteInside(Flatten(bs[..k]), bs[k], Flatten(bs[k + 1..]), j); }
      Delete(Flatten(bs[..k]) + bs[k] + Flatten(bs[k + 1..]), Offset(bs, k) + j);
    }
  }

  /** Appending a block appends its contents to the list. */
  lemma FlattenAppendBlock<T>(bs: seq<seq<T>>, s: seq<T>)
    ensures Flatten(bs + [s]) == Flatten(bs) + s
  {
    FlattenConcat(bs, [s]);
    assert [s][1..] == [];
  }

  /** Appending to the last block appends to the list. */
  lemma FlattenAppendLast<T>(bs: seq<seq<T>>, x: T)
    requires |bs| > 0
    ensures Flatten(bs[|bs| - 1 := bs[|bs| - 1] + [x]]) == Flatten(bs) + [x]
  {
    var last := |bs| - 1;
    assert bs == bs[..last] + [bs[last]];
    assert bs[last := bs[last] + [x]] == bs[..last] + [bs[last] + [x]];
    FlattenAppendBlock(bs[..last], bs[last]);
    FlattenAppendBlock(bs[..last], bs[last] + [x]);
  }
}
