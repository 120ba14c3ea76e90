/** The space-efficient list of Llist/SLList.cpp: a doubly-linked chain of
    nodes, each holding a bounded deque of at most `b + 1` elements.

    The chain is modelled by the sequence of its nodes' contents in chain
    order: node `k` is `blocks[k]`, and the sentinel sits at index
    `|blocks|`, past the last real node, so that `prev` of node `k` is
    `k - 1` and `next` is `k + 1`.  Linking a node in or out inserts or
    deletes an entry of `blocks`.  The list the chain stands for is
    `Flatten(blocks)`. */
module SpaceEfficientList {
  import opened Errors
  import opened Seqs
  import opened Blocks

  /** No block holds more than a bounded deque's capacity `b + 1`. */
  ghost predicate Fits<T>(bs: seq<seq<T>>, b: int)
  {
    forall k :: 0 <= k < |bs| ==> |bs[k]| <= b + 1
  }

  /** Every block but the one at index `hole` holds something; with
      `hole == |bs|` (the sentinel) no real node is empty. */
  ghost predicate NonEmptyExcept<T>(bs: seq<seq<T>>, hole: int)
  {
    forall k :: 0 <= k < |bs| && k != hole ==> 1 <= |bs[k]|
  }

  /** The last `b` blocks are all full and `i` is the last slot of the
      first of them: the position at which `add(i, x)` spreads those
      blocks and then inserts past the end of the shortened block. */
  ghost predicate NearTailSpread<T>(bs: seq<seq<T>>, b: int, i: int)
  {
    0 <= b <= |bs| &&
    (forall k :: |bs| - b <= k < |bs| ==> |bs[k]| == b + 1) &&
    i == Offset(bs, |bs| - b) + b
  }

  /** The block-size rule the source's `validate` checks: every block but
      the last holds `b - 1` to `b + 1` elements, the last one `1` to
      `b + 1`, and the sizes add up to `n`. */
  ghost predicate SourceInvariant<T>(bs: seq<seq<T>>, b: int, n: int)
  {
    (forall k :: 0 <= k < |bs| - 1 ==> b - 1 <= |bs[k]| <= b + 1) &&
    (|bs| > 0 ==> 1 <= |bs[|bs| - 1]| <= b + 1) &&
    TotalSize(bs) == n
  }

  /** What `validate` checks is stronger than the invariant every
      operation of the list keeps. */
  lemma SourceInvariantValid<T>(bs: seq<seq<T>>, b: int, n: int)
    requires b >= 2 && SourceInvariant(bs, b, n)
    ensures Fits(bs, b) && NonEmptyExcept(bs, |bs|) && n == |Flatten(bs)|
  {
    FlattenSize(bs);
  }

  /** A near-tail position is a real position of the list. */
  lemma NearTailInside<T>(bs: seq<seq<T>>, b: int, i: int)
    requires b >= 1 && NearTailSpread(bs, b, i)
    ensures i < |Flatten(bs)|
  {
    var u := |bs| - b;
    OffsetNext(bs, u);
    OffsetMono(bs, u + 1, |bs|);
    OffsetLast(bs);
  }

  /** At a near-tail position the walk of `getLocation` ends in the first
      of the last `b` blocks, at its last slot. */
  lemma NearTailLocation<T>(bs: seq<seq<T>>, b: int, i: int, u: int, j: int)
    requires b >= 1 && 0 <= u < |bs| && 0 <= j < |bs[u]| && Offset(bs, u) + j == i
    ensures NearTailSpread(bs, b, i) ==> u == |bs| - b && j == b
  {
    if NearTailSpread(bs, b, i) {
      LocationUnique(bs, u, j, |bs| - b, b);
    }
  }

  /** The chain after `add(x)`: `x` goes at the back of the last node,
      or into a new last node when there is none or it is full. */
  function Appended<T>(bs: seq<seq<T>>, b: int, x: T): seq<seq<T>>
  {
    if |bs| == 0 || |bs[|bs| - 1]| == b + 1 then bs + [[x]]
    else bs[|bs| - 1 := bs[|bs| - 1] + [x]]
  }

  /** Appending adds `x` at the end of the list and keeps every node
      non-empty and within capacity. */
  lemma AppendedShape<T>(bs: seq<seq<T>>, b: int, x: T)
    requires b >= 0 && Fits(bs, b) && NonEmptyExcept(bs, |bs|)
    ensures Flatten(Appended(bs, b, x)) == Flatten(bs) + [x]
    ensures Fits(Appended(bs, b, x), b)
    ensures NonEmptyExcept(Appended(bs, b, x), |Appended(bs, b, x)|)
  {
    if |bs| == 0 || |bs[|bs| - 1]| == b + 1 {
      FlattenAppendBlock(bs, [x]);
    } else {
      FlattenAppendLast(bs, x);
    }
  }

  /** Unlinking the one empty node leaves no node empty. */
  lemma RemoveHole<T>(bs: seq<seq<T>>, b: int, u: int)
    requires 0 <= u < |bs| && Fits(bs, b) && NonEmptyExcept(bs, u) && |bs[u]| == 0
    ensures Fits(bs[..u] + bs[u + 1..], b)
    ensures NonEmptyExcept(bs[..u] + bs[u + 1..], |bs| - 1)
  {
    var cs := bs[..u] + bs[u + 1..];
    forall k | 0 <= k < |cs|
      ensures cs[k] == if k < u then bs[k] else bs[k + 1]
    {
    }
  }

  /** The entries of `s` that are not empty, in their order: what is left
      of a run of nodes once the empty ones are unlinked. */
  function Compact<T>(s: seq<seq<T>>): (r: seq<seq<T>>)
    ensures |r| <= |s|
  {
    if s == [] then []
    else if s[0] == [] then Compact(s[1..])
    else [s[0]] + Compact(s[1..])
  }

  /** `Compact` keeps exactly the non-empty entries: each entry it keeps
      is a non-empty entry of `s`, and it drops nothing when `s` has no
      empty entry. */
  lemma {:induction false} CompactEntries<T>(s: seq<seq<T>>)
    ensures forall k :: 0 <= k < |Compact(s)| ==> Compact(s)[k] != [] && Compact(s)[k] in s
    ensures (forall k :: 0 <= k < |s| ==> s[k] != []) ==> Compact(s) == s
  {
    if s != [] {
      CompactEntries(s[1..]);
      assert s == [s[0]] + s[1..];
    }
  }

  /** One step of the unlinking walk of `gather` over the chain `c`,
      whose nodes after `w` up to `hi` have already been compacted:
      node `w` is unlinked when it is empty and stays otherwise. */
  lemma UnlinkStep<T>(c: seq<seq<T>>, w: int, hi: int)
    requires 0 <= w < hi <= |c|
    ensures var bs := c[..w + 1] + Compact(c[w + 1..hi]) + c[hi..];
      w < |bs| && bs[w] == c[w] &&
      (c[w] == [] ==> bs[..w] + bs[w + 1..] == c[..w] + Compact(c[w..hi]) + c[hi..]) &&
      (c[w] != [] ==> bs == c[..w] + Compact(c[w..hi]) + c[hi..])
  {
    var rest := Compact(c[w + 1..hi]);
    assert c[w..hi][1..] == c[w + 1..hi];
    Splice(c[..w], c[w], rest, c[hi..]);
    assert c[..w + 1] == c[..w] + [c[w]];
  }

  /** Splitting `p + [x] + r + t` at `x`. */
  lemma Splice<X>(p: seq<X>, x: X, r: seq<X>, t: seq<X>)
    ensures (p + [x] + r + t)[|p|] == x
    ensures (p + [x] + r + t)[..|p|] + (p + [x] + r + t)[|p| + 1..] == p + r + t
    ensures p + [x] + r + t == p + ([x] + r) + t
  {
    assert (p + [x] + r + t)[..|p|] == p;
    assert (p + [x] + r + t)[|p| + 1..] == r + t;
  }

  /** The chain `gather` leaves: of the chain `o` it started from, the
      nodes before `u` and from `u + b` on are kept, the latter shifted
      down by the number of nodes unlinked, which is below `b`; no node is
      empty or over `b + 1`.  `c` is the chain after the filling. */
  lemma GatheredShape<T>(o: seq<seq<T>>, c: seq<seq<T>>, u: int, b: int, bs: seq<seq<T>>)
    requires 0 <= u && b >= 1 && u + b <= |c| == |o|
    requires forall k :: 0 <= k < |c| && (k < u || u + b <= k) ==> c[k] == o[k]
    requires bs == c[..u + 1] + Compact(c[u + 1..u + b]) + c[u + b..]
    requires Fits(c, b)
    requires forall k :: 0 <= k < |c| && (k <= u || u + b <= k) ==> 1 <= |c[k]|
    ensures u < |bs| <= |o| && |o| - |bs| <= b - 1
    ensures forall k :: 0 <= k < u ==> bs[k] == o[k]
    ensures bs[|bs| - (|o| - (u + b))..] == o[u + b..]
    ensures Fits(bs, b) && NonEmptyExcept(bs, |bs|)
  {
    var mid := Compact(c[u + 1..u + b]);
    CompactEntries(c[u + 1..u + b]);
    var front := c[..u + 1] + mid;
    assert bs == front + c[u + b..];
    forall k | 0 <= k < |bs|
      ensures 1 <= |bs[k]| <= b + 1
    {
      if k <= u {
      } else if k < |front| {
        assert bs[k] == mid[k - u - 1];
      } else {
        assert bs[k] == c[k - |front| + u + b];
      }
    }
    assert bs[|front|..] == c[u + b..];
  }

  class SEList<T> {
    /** The block size. */
    const b: int
    /** The number of elements. */
    var n: int
    /** The contents of the real nodes, in chain order. */
    var blocks: seq<seq<T>>

    /** The list the chain stands for. */
    function Contents(): seq<T>
      reads this
    {
      Flatten(blocks)
    }

    ghost predicate Valid()
      reads this
    {
      b >= 2 && n == |Flatten(blocks)| && Fits(blocks, b) && NonEmptyExcept(blocks, |blocks|)
    }

    /** An empty list: only the sentinel. */
    constructor (blockSize: int)
      requires blockSize >= 2
      ensures Valid() && b == blockSize && blocks == [] && Contents() == []
    {
      b := blockSize;
      n := 0;
      blocks := [];
    }

    function Size(): (r: int)
      reads this
      requires Valid()
      ensures r == |Contents()|
    {
      n
    }

    function Empty(): (r: bool)
      reads this
      requires Valid()
      ensures r <==> Contents() == []
    {
      n == 0
    }

    /** `getLocation`: the node and the index within it of element `i`,
        found by walking forward from the first node when `i` lies in the
        first half and backward from the sentinel otherwise.  Either walk
        finds the only such pair (see `LocationUnique`). */
    method Locate(i: int) returns (u: int, j: int)
      requires Valid() && 0 <= i < n
      ensures 0 <= u < |blocks| && 0 <= j < |blocks[u]|
      ensures Offset(blocks, u) + j == i
      ensures Contents()[i] == blocks[u][j]
    {
      OffsetLast(blocks);
      if i < n / 2 {
        u, j := 0, i;
        while j >= |blocks[u]|
          invariant 0 <= u < |blocks| && 0 <= j
          invariant Offset(blocks, u) + j == i
          decreases |blocks| - u
        {
          OffsetNext(blocks, u);
          j := j - |blocks[u]|;
          u := u + 1;
        }
      } else {
        u := |blocks|;
        var idx := n;
        while i < idx
          invariant 0 <= u <= |blocks| && idx == Offset(blocks, u)
          invariant u < |blocks| ==> i < idx + |blocks[u]|
          decreases u
        {
          u := u - 1;
          OffsetNext(blocks, u);
          idx := idx - |blocks[u]|;
        }
        j := i - idx;
      }
      FlattenAt(blocks, u, j);
    }

    /** `get(i)`. */
    method Get(i: int) returns (r: Result<T>)
      requires Valid()
      ensures r == if 0 <= i < |Contents()| then Ok(Contents()[i]) else Err(OutOfRange)
    {
      if i < 0 || i >= n {
        return Err(OutOfRange);
      }
      var u, j := Locate(i);
      return Ok(blocks[u][j]);
    }

    /** `set(i, x)`: returns the element it replaces. */
    method Set(i: int, x: T) returns (r: Result<T>)
      requires Valid()
      modifies this
      ensures Valid() && n == old(n)
      ensures r == if 0 <= i < |old(Contents())| then Ok(old(Contents())[i]) else Err(OutOfRange)
      ensures Contents() == if r.Ok? then old(Contents())[i := x] else old(Contents())
    {
      if i < 0 || i >= n {
        return Err(OutOfRange);
      }
      var u, j := Locate(i);
      r := Ok(blocks[u][j]);
      FlattenSet(blocks, u, j, x);
      blocks := blocks[u := blocks[u][j := x]];
    }

    /** `addBefore(target)`: links a new empty node in front of node `t`
        (the sentinel when `t == |blocks|`). */
    method AddBefore(t: int)
      requires 0 <= t <= |blocks|
      modifies this
      ensures blocks == old(blocks)[..t] + [[]] + old(blocks)[t..]
      ensures Flatten(blocks) == Flatten(old(blocks)) && n == old(n)
    {
      FlattenInsertEmpty(blocks, t);
      blocks := blocks[..t] + [[]] + blocks[t..];
    }

    /** `removeNode(node)`: unlinks node `k`; the list keeps its elements
        when the node was empty. */
    method RemoveNode(k: int)
      requires 0 <= k < |blocks|
      modifies this
      ensures blocks == old(blocks)[..k] + old(blocks)[k + 1..]
      ensures old(blocks)[k] == [] ==> Flatten(blocks) == Flatten(old(blocks))
      ensures n == old(n)
    {
      if blocks[k] == [] {
        FlattenRemoveEmpty(blocks, k);
      }
      blocks := blocks[..k] + blocks[k + 1..];
    }

    /** `d.add(j, x)` on node `k`'s bounded deque, which must have room:
        it fails with `OutOfRange` unless `0 <= j <= size`. */
    method BlockAdd(k: int, j: int, x: T) returns (r: Status)
      requires 0 <= k < |blocks| && |blocks[k]| < b + 1
      modifies this
      ensures r == if 0 <= j <= |old(blocks)[k]| then Done else Failed(OutOfRange)
      ensures blocks == if r == Done then old(blocks)[k := Insert(old(blocks)[k], j, x)] else old(blocks)
      ensures n == old(n)
    {
      if j < 0 || j > |blocks[k]| {
        return Failed(OutOfRange);
      }
      blocks := blocks[k := Insert(blocks[k], j, x)];
      return Done;
    }

    /** `x = w->prev->d.remove(size - 1); w->d.add(0, x)` with `w` the
        node `k + 1`: the last element of node `k` moves to the front of
        node `k + 1`. */
    method MoveLastToNext(k: int)
      requires 0 <= k < |blocks| - 1 && |blocks[k]| > 0
      modifies this
      ensures |blocks| == |old(blocks)|
      ensures blocks[k] == old(blocks)[k][..|old(blocks)[k]| - 1]
      ensures blocks[k + 1] == [old(blocks)[k][|old(blocks)[k]| - 1]] + old(blocks)[k + 1]
      ensures forall m :: 0 <= m < |blocks| && m != k && m != k + 1 ==> blocks[m] == old(blocks)[m]
      ensures Flatten(blocks) == Flatten(old(blocks)) && n == old(n)
    {
      var last := |blocks[k]| - 1;
      var x := blocks[k][last];
      var front, back := blocks[k][..last], [x] + blocks[k + 1];
      assert front + back == blocks[k] + blocks[k + 1] by {
        assert blocks[k] == front + [x];
      }
      FlattenShiftBoundary(blocks, k, front, back);
      blocks := blocks[k := front][k + 1 := back];
    }

    /** `x = w->next->d.remove(0); w->d.add(x)` with `w` the node `k`:
        the first element of node `k + 1` moves to the back of node `k`. */
    method MoveFirstToPrev(k: int)
      requires 0 <= k < |blocks| - 1 && |blocks[k + 1]| > 0
      modifies this
      ensures |blocks| == |old(blocks)|
      ensures blocks[k] == old(blocks)[k] + [old(blocks)[k + 1][0]]
      ensures blocks[k + 1] == old(blocks)[k + 1][1..]
      ensures forall m :: 0 <= m < |blocks| && m != k && m != k + 1 ==> blocks[m] == old(blocks)[m]
      ensures Flatten(blocks) == Flatten(old(blocks)) && n == old(n)
    {
      var x := blocks[k + 1][0];
      var front, back := blocks[k] + [x], blocks[k + 1][1..];
      assert front + back == blocks[k] + blocks[k + 1] by {
        assert blocks[k + 1] == [x] + back;
      }
      FlattenShiftBoundary(blocks, k, front, back);
      blocks := blocks[k := front][k + 1 := back];
    }

    /** `add(x)`: appends to the last node, linking in a new last node
        first when there is none or it is full. */
    method Append(x: T)
      requires Valid()
      modifies this
      ensures Valid() && n == old(n) + 1
      ensures blocks == Appended(old(blocks), b, x)
      ensures Contents() == old(Contents()) + [x]
    {
      AppendedShape(blocks, b, x);
      ghost var B := blocks;
      if |blocks| == 0 || |blocks[|blocks| - 1]| == b + 1 {
        AddBefore(|blocks|);
        assert blocks == B + [[]];
      }
      var last := |blocks| - 1;
      ghost var bs := blocks;
      InsertAtEnd(bs[last], x);
      var st := BlockAdd(last, |blocks[last]|, x);
      assert blocks == bs[last := bs[last] + [x]];
      if |B| == 0 || |B[|B| - 1]| == b + 1 {
        assert bs[last] + [x] == [x];
        assert blocks == B + [[x]];
      }
      n := n + 1;
    }

    /** The inner loop of `spread` (lines 210-213): moves elements from
        the back of node `w - 1` to the front of node `w` until `w` holds
        `b` or node `w - 1` runs empty. */
    method FillFromPrev(w: int)
      requires 0 < w < |blocks| && |blocks[w]| <= b
      modifies this
      ensures |blocks| == |old(blocks)| && n == old(n)
      ensures forall k :: 0 <= k < |blocks| && k != w - 1 && k != w ==> blocks[k] == old(blocks)[k]
      ensures |blocks[w - 1]| + |blocks[w]| == |old(blocks)[w - 1]| + |old(blocks)[w]|
      ensures |blocks[w - 1]| <= |old(blocks)[w - 1]|
      ensures blocks[w - 1] == old(blocks)[w - 1][..|blocks[w - 1]|]
      ensures |blocks[w]| <= b && (|blocks[w]| == b || blocks[w - 1] == [])
      ensures Flatten(blocks) == Flatten(old(blocks))
    {
      while |blocks[w]| < b && |blocks[w - 1]| > 0
        invariant |blocks| == |old(blocks)| && n == old(n)
        invariant forall k :: 0 <= k < |blocks| && k != w - 1 && k != w ==> blocks[k] == old(blocks)[k]
        invariant |blocks[w - 1]| + |blocks[w]| == |old(blocks)[w - 1]| + |old(blocks)[w]|
        invariant |blocks[w - 1]| <= |old(blocks)[w - 1]|
        invariant blocks[w - 1] == old(blocks)[w - 1][..|blocks[w - 1]|]
        invariant |blocks[w]| <= b
        invariant Flatten(blocks) == Flatten(old(blocks))
        decreases b - |blocks[w]|
      {
        MoveLastToNext(w - 1);
      }
    }

    /** The first loop of `spread` (lines 200-204): from node `u`, step
        forward `b` nodes, stopping early at the last node. */
    method WalkAhead(u: int) returns (w: int)
      requires b >= 0 && 0 <= u < |blocks|
      ensures w == if u + b < |blocks| then u + b else |blocks| - 1
    {
      w := u;
      var r := 0;
      while r < b && w + 1 < |blocks|
        invariant w == u + r && 0 <= r <= b && w < |blocks|
      {
        w, r := w + 1, r + 1;
      }
    }

    /** `spread(u)`: with the `b` nodes from `u` on all full, links a new
        node in after them (before the last of them when they end the
        chain) and moves elements backward so that every node after `u`
        up to the new one holds `b`; node `u` keeps the first `p - u` of
        its elements. */
    method Spread(u: int) returns (p: int)
      requires Valid()
      requires 0 <= u && u + b <= |blocks|
      requires forall k :: u <= k < u + b ==> |blocks[k]| == b + 1
      modifies this
      ensures Valid() && n == old(n) && Contents() == old(Contents())
      ensures p == if u + b < |old(blocks)| then u + b else u + b - 1
      ensures |blocks| == |old(blocks)| + 1
      ensures forall k :: 0 <= k < u ==> blocks[k] == old(blocks)[k]
      ensures forall k :: p < k < |blocks| ==> blocks[k] == old(blocks)[k - 1]
      ensures blocks[u] == old(blocks)[u][..p - u]
      ensures forall k :: u < k <= p ==> |blocks[k]| == b
    {
      p := WalkAhead(u);
      AddBefore(p);
      ghost var B0 := old(blocks);
      SpreadBack(u, p);
      forall k | 0 <= k < |blocks|
        ensures 1 <= |blocks[k]| <= b + 1
      {
        if k < u {
          assert blocks[k] == B0[k];
        } else if p < k {
          assert blocks[k] == B0[k - 1];
        }
      }
    }

    /** The backward redistribution of `spread` (lines 209-215): with
        nodes `u` to `p - 1` full and node `p` empty, fill every node from
        `p` down to `u + 1` to `b` from its predecessor; node `u` keeps the
        first `p - u` of its elements. */
    method SpreadBack(u: int, p: int)
      requires 0 <= u < p < |blocks| && p - u <= b
      requires forall k :: u <= k < p ==> |blocks[k]| == b + 1
      requires blocks[p] == []
      modifies this
      ensures |blocks| == |old(blocks)| && n == old(n)
      ensures forall k :: 0 <= k < |blocks| && (k < u || p < k) ==> blocks[k] == old(blocks)[k]
      ensures blocks[u] == old(blocks)[u][..p - u]
      ensures forall k :: u < k <= p ==> |blocks[k]| == b
      ensures Flatten(blocks) == Flatten(old(blocks))
    {
      var w := p;
      while w != u
        invariant u <= w <= p
        invariant |blocks| == |old(blocks)| && n == old(n)
        invariant forall k :: 0 <= k < |blocks| && (k < w || p < k) ==> blocks[k] == old(blocks)[k]
        invariant blocks[w] == old(blocks)[w][..p - w]
        invariant forall k :: w < k <= p ==> |blocks[k]| == b
        invariant Flatten(blocks) == Flatten(old(blocks))
      {
        FillFromPrev(w);
        w := w - 1;
      }
    }

    /** The walk and shift of `add(i, x)` (lines 312-324): from node `u`,
        walk forward past full nodes to the first node `t` with room, then
        move one element forward across every node walked past. */
    method OpenSlot(u: int, ghost t: int)
      requires b >= 2 && 0 <= u <= t < |blocks|
      requires Fits(blocks, b) && |blocks[t]| <= b
      requires forall k :: u <= k < t ==> |blocks[k]| == b + 1
      requires NonEmptyExcept(blocks, t) && (t == u ==> 1 <= |blocks[u]|)
      modifies this
      ensures |blocks| == |old(blocks)| && blocks[..u] == old(blocks)[..u]
      ensures Flatten(blocks) == Flatten(old(blocks)) && n == old(n)
      ensures Fits(blocks, b) && NonEmptyExcept(blocks, |blocks|)
      ensures |old(blocks)[u]| - 1 <= |blocks[u]| <= b
      ensures t == u ==> blocks == old(blocks)
    {
      var w := u;
      while |blocks[w]| == b + 1 && w + 1 < |blocks|
        invariant u <= w <= t
      {
        w := w + 1;
      }
      ghost var B0 := blocks;
      while w != u
        invariant u <= w <= t
        invariant |blocks| == |B0|
        invariant forall k :: 0 <= k < |blocks| && (k < w || t < k) ==> blocks[k] == B0[k]
        invariant forall k :: w < k < t ==> |blocks[k]| == b + 1
        invariant w < t ==> |blocks[w]| == b && |blocks[t]| == |B0[t]| + 1
        invariant w == t ==> blocks == B0
        invariant Flatten(blocks) == Flatten(B0) && n == old(n)
        decreases w
      {
        if |blocks[w - 1]| > 0 {
          MoveLastToNext(w - 1);
        }
        w := w - 1;
      }
      assert blocks[..u] == old(blocks)[..u];
    }

    /** The scan of `add(i, x)` (lines 296-300): counts the full nodes
        from node `u` on, stopping after `b` of them, at the sentinel, or
        at a node with room, which is `temp`. */
    method CountFull(u: int) returns (r: int, temp: int)
      requires Valid() && 0 <= u < |blocks|
      ensures temp == u + r && 0 <= r <= b && temp <= |blocks|
      ensures forall k :: u <= k < temp ==> |blocks[k]| == b + 1
      ensures r == b || temp == |blocks| || |blocks[temp]| <= b
    {
      r, temp := 0, u;
      while r < b && temp < |blocks| && |blocks[temp]| == b + 1
        invariant u <= temp <= |blocks| && temp == u + r && r <= b
        invariant forall k :: u <= k < temp ==> |blocks[k]| == b + 1
      {
        temp, r := temp + 1, r + 1;
      }
    }

    /** `add(i, x)` for `0 <= i < n`, up to the final insertion: locate
        `i`, count the full nodes from there (at most `b`), spread them
        when there are `b`, link in a new last node when they run to the
        end of the chain, and open a slot in node `u`.  The insertion slot
        `j` lies past the end of node `u` exactly in the near-tail case,
        and then the element at `i` opens node `u + 1`. */
    method MakeRoom(i: int) returns (u: int, j: int)
      requires Valid() && 0 <= i < n
      modifies this
      ensures Valid() && n == old(n) && Contents() == old(Contents())
      ensures 0 <= u < |blocks| && |blocks[u]| <= b && 0 <= j && Offset(blocks, u) + j == i
      ensures j <= |blocks[u]| <==> !NearTailSpread(old(blocks), b, i)
      ensures j > |blocks[u]| ==> j == |blocks[u]| + 1 && u + 1 < |blocks| && |blocks[u + 1]| == b
    {
      u, j := Locate(i);
      ghost var B := blocks;
      NearTailLocation(B, b, i, u, j);
      var r, temp := CountFull(u);
      if r == b {
        var p := Spread(u);
        assert blocks[..u] == B[..u];
        OpenSlot(u, u);
        if p == u + b - 1 && j == b {
          assert NearTailSpread(B, b, i);
        }
      } else {
        if temp == |blocks| {
          AddBefore(|blocks|);
          assert blocks[..u] == B[..u];
        }
        OpenSlot(u, temp);
      }
    }

    /** `add(i, x)` as written.  Besides the out-of-range failure it fails,
        after spreading, at a near-tail position (see `NearTailDemo`),
        leaving the list unchanged. */
    method Add(i: int, x: T) returns (r: Status)
      requires Valid()
      modifies this
      ensures Valid()
      ensures r == Done <==> 0 <= i <= |old(Contents())| && !NearTailSpread(old(blocks), b, i)
      ensures r == Done ==> Contents() == Insert(old(Contents()), i, x) && n == old(n) + 1
      ensures r != Done ==> r == Failed(OutOfRange) && Contents() == old(Contents()) && n == old(n)
    {
      if i < 0 || i > n {
        return Failed(OutOfRange);
      }
      if i == n {
        if NearTailSpread(blocks, b, i) {
          NearTailInside(blocks, b, i);
        }
        InsertAtEnd(Contents(), x);
        Append(x);
        return Done;
      }
      var u, j := MakeRoom(i);
      ghost var bs := blocks;
      r := BlockAdd(u, j, x);
      if r == Done {
        FlattenInsert(bs, u, j, x);
        n := n + 1;
      }
    }

    /** `add(i, x)` inserting, after a spread, into the node that now holds
        position `i`: it fails only out of range. */
    method AddCorrected(i: int, x: T) returns (r: Status)
      requires Valid()
      modifies this
      ensures Valid()
      ensures r == Done <==> 0 <= i <= |old(Contents())|
      ensures r == Done ==> Contents() == Insert(old(Contents()), i, x) && n == old(n) + 1
      ensures r != Done ==> r == Failed(OutOfRange) && Contents() == old(Contents()) && n == old(n)
    {
      if i < 0 || i > n {
        return Failed(OutOfRange);
      }
      if i == n {
        InsertAtEnd(Contents(), x);
        Append(x);
        return Done;
      }
      var u, j := MakeRoom(i);
      if j > |blocks[u]| {
        OffsetNext(blocks, u);
        j := j - |blocks[u]|;
        u := u + 1;
      }
      ghost var bs := blocks;
      r := BlockAdd(u, j, x);
      FlattenInsert(bs, u, j, x);
      n := n + 1;
    }

    /** `gather(u)`: with the `b` nodes from `u` on all holding fewer than
        `b` elements, fills each of the first `b - 1` of them up to `b`
        from its successor, then unlinks, walking back towards `u`, the
        nodes after `u` that this left empty.  `filled` is the chain after
        the filling: the nodes from `u + 1` to `u + b - 1` that it left
        non-empty survive in order, and every other node is kept. */
    method Gather(u: int) returns (ghost filled: seq<seq<T>>)
      requires b >= 2 && 0 <= u && u + b <= |blocks|
      requires forall k :: u <= k < u + b ==> |blocks[k]| < b
      requires Fits(blocks, b) && NonEmptyExcept(blocks, u)
      modifies this
      ensures |filled| == |old(blocks)| && Flatten(filled) == Flatten(old(blocks))
      ensures forall k :: 0 <= k < |filled| && (k < u || u + b <= k) ==> filled[k] == old(blocks)[k]
      ensures forall k :: u <= k < u + b ==> |filled[k]| <= b
      ensures blocks == filled[..u + 1] + Compact(filled[u + 1..u + b]) + filled[u + b..]
      ensures Flatten(blocks) == Flatten(old(blocks)) && n == old(n)
      ensures u < |blocks| <= |old(blocks)| && |old(blocks)| - |blocks| <= b - 1
      ensures forall k :: 0 <= k < u ==> blocks[k] == old(blocks)[k]
      ensures blocks[|blocks| - (|old(blocks)| - (u + b))..] == old(blocks)[u + b..]
      ensures Fits(blocks, b) && NonEmptyExcept(blocks, |blocks|)
    {
      var w := GatherFill(u);
      filled := blocks;
      UnlinkEmpty(u, u + b, filled);
      GatheredShape(old(blocks), filled, u, b, blocks);
    }

    /** The unlinking loop of `gather` (lines 229-236): walking back from
        node `hi - 1` to node `u + 1`, every empty node is unlinked. */
    method UnlinkEmpty(u: int, hi: int, ghost C: seq<seq<T>>)
      requires 0 <= u < hi <= |blocks| && blocks == C
      modifies this
      ensures blocks == C[..u + 1] + Compact(C[u + 1..hi]) + C[hi..]
      ensures Flatten(blocks) == Flatten(C) && n == old(n)
    {
      var w := hi - 1;
      assert C[w + 1..hi] == [] && C == C[..w + 1] + C[hi..];
      while w != u
        invariant u <= w < hi
        invariant blocks == C[..w + 1] + Compact(C[w + 1..hi]) + C[hi..]
        invariant Flatten(blocks) == Flatten(C) && n == old(n)
        decreases w
      {
        UnlinkStep(C, w, hi);
        if |blocks[w]| == 0 {
          RemoveNode(w);
        }
        w := w - 1;
      }
    }

    /** The filling loop of `gather` (lines 221-227). */
    method GatherFill(u: int) returns (w: int)
      requires b >= 2 && 0 <= u && u + b <= |blocks|
      requires forall k :: u <= k < u + b ==> |blocks[k]| < b
      requires Fits(blocks, b) && NonEmptyExcept(blocks, u)
      modifies this
      ensures w == u + b - 1 && |blocks| == |old(blocks)|
      ensures Flatten(blocks) == Flatten(old(blocks)) && n == old(n)
      ensures forall k :: 0 <= k < |blocks| && (k < u || w < k) ==> blocks[k] == old(blocks)[k]
      ensures forall k :: u <= k <= w ==> |blocks[k]| <= b
      ensures 1 <= |blocks[u]|
      ensures Fits(blocks, b)
      ensures forall k :: 0 <= k < |blocks| && (k <= u || w < k) ==> 1 <= |blocks[k]|
    {
      w := u;
      var jj := 0;
      while jj < b - 1 && w + 1 < |blocks|
        invariant w == u + jj && 0 <= jj <= b - 1 && w < |blocks|
        invariant |blocks| == |old(blocks)| && n == old(n)
        invariant forall k :: 0 <= k < |blocks| && (k < u || w < k) ==> blocks[k] == old(blocks)[k]
        invariant forall k :: u <= k <= w ==> |blocks[k]| <= b
        invariant w > u ==> 1 <= |blocks[u]|
        invariant Flatten(blocks) == Flatten(old(blocks))
      {
        FillFromNext(w);
        w, jj := w + 1, jj + 1;
      }
    }

    /** The inner loop of `gather` (lines 222-225): moves elements from
        the front of node `w + 1` to the back of node `w` until `w` holds
        `b` or node `w + 1` runs empty. */
    method FillFromNext(w: int)
      requires 0 <= w < |blocks| - 1 && |blocks[w]| <= b
      modifies this
      ensures |blocks| == |old(blocks)| && n == old(n)
      ensures forall k :: 0 <= k < |blocks| && k != w && k != w + 1 ==> blocks[k] == old(blocks)[k]
      ensures |blocks[w]| + |blocks[w + 1]| == |old(blocks)[w]| + |old(blocks)[w + 1]|
      ensures |blocks[w + 1]| <= |old(blocks)[w + 1]|
      ensures |blocks[w]| <= b && (|blocks[w]| == b || blocks[w + 1] == [])
      ensures Flatten(blocks) == Flatten(old(blocks))
    {
      while |blocks[w]| < b && |blocks[w + 1]| > 0
        invariant |blocks| == |old(blocks)| && n == old(n)
        invariant forall k :: 0 <= k < |blocks| && k != w && k != w + 1 ==> blocks[k] == old(blocks)[k]
        invariant |blocks[w]| + |blocks[w + 1]| == |old(blocks)[w]| + |old(blocks)[w + 1]|
        invariant |blocks[w + 1]| <= |old(blocks)[w + 1]|
        invariant |blocks[w]| <= b
        invariant Flatten(blocks) == Flatten(old(blocks))
        decreases |blocks[w + 1]|
      {
        MoveFirstToPrev(w);
      }
    }

    /** The first borrowing loop of `remove` (lines 356-359): while node
        `u` holds fewer than `b - 1` elements and its successor is a real
        node holding more, the successor's first element moves to the back
        of `u`. */
    method BorrowFromNext(u: int)
      requires b >= 2 && 0 <= u < |blocks|
      requires Fits(blocks, b) && NonEmptyExcept(blocks, u)
      modifies this
      ensures |blocks| == |old(blocks)| && n == old(n)
      ensures Flatten(blocks) == Flatten(old(blocks))
      ensures forall k :: 0 <= k < |blocks| && k != u && k != u + 1 ==> blocks[k] == old(blocks)[k]
      ensures Fits(blocks, b) && NonEmptyExcept(blocks, u)
      ensures |blocks[u]| >= |old(blocks)[u]|
    {
      while |blocks[u]| < b - 1 && u + 1 < |blocks| && |blocks[u + 1]| > b - 1
        invariant |blocks| == |old(blocks)| && n == old(n)
        invariant Flatten(blocks) == Flatten(old(blocks))
        invariant forall k :: 0 <= k < |blocks| && k != u && k != u + 1 ==> blocks[k] == old(blocks)[k]
        invariant Fits(blocks, b) && NonEmptyExcept(blocks, u)
        invariant |blocks[u]| >= |old(blocks)[u]|
        decreases b - |blocks[u]|
      {
        MoveFirstToPrev(u);
      }
    }

    /** The second borrowing loop of `remove` (lines 360-363): while node
        `u` holds fewer than `b - 1` elements and its predecessor is a real
        node holding more, the predecessor's last element moves to the
        front of `u`. */
    method BorrowFromPrev(u: int)
      requires b >= 2 && 0 <= u < |blocks|
      requires Fits(blocks, b) && NonEmptyExcept(blocks, u)
      modifies this
      ensures |blocks| == |old(blocks)| && n == old(n)
      ensures Flatten(blocks) == Flatten(old(blocks))
      ensures forall k :: 0 <= k < |blocks| && k != u - 1 && k != u ==> blocks[k] == old(blocks)[k]
      ensures Fits(blocks, b) && NonEmptyExcept(blocks, u)
      ensures |blocks[u]| >= |old(blocks)[u]|
    {
      while |blocks[u]| < b - 1 && u > 0 && |blocks[u - 1]| > b - 1
        invariant |blocks| == |old(blocks)| && n == old(n)
        invariant Flatten(blocks) == Flatten(old(blocks))
        invariant forall k :: 0 <= k < |blocks| && k != u - 1 && k != u ==> blocks[k] == old(blocks)[k]
        invariant Fits(blocks, b) && NonEmptyExcept(blocks, u)
        invariant |blocks[u]| >= |old(blocks)[u]|
        decreases b - |blocks[u]|
      {
        MoveLastToNext(u - 1);
      }
    }

    /** The count of `remove` (lines 345-350): how many nodes from `u` on,
        up to the sentinel, hold fewer than `b` elements in a row. */
    method CountSmall(u: int) returns (count: int)
      requires 0 <= u < |blocks|
      ensures 0 <= count <= |blocks| - u
      ensures forall k :: u <= k < u + count ==> |blocks[k]| < b
      ensures u + count == |blocks| || |blocks[u + count]| >= b
    {
      var temp := u;
      count := 0;
      while temp < |blocks| && |blocks[temp]| < b
        invariant u <= temp <= |blocks| && count == temp - u
        invariant forall k :: u <= k < temp ==> |blocks[k]| < b
      {
        count, temp := count + 1, temp + 1;
      }
    }

    /** `remove(i)`: deletes element `i` from its node, then refills a node
        left with fewer than `b - 1` elements, by `gather` when at least
        `b` small nodes follow in a row and by borrowing from its
        neighbours otherwise, and unlinks it if it ends up empty. */
    method Remove(i: int) returns (r: Result<T>)
      requires Valid()
      modifies this
      ensures Valid()
      ensures r == if 0 <= i < |old(Contents())| then Ok(old(Contents())[i]) else Err(OutOfRange)
      ensures Contents() == if r.Ok? then Delete(old(Contents()), i) else old(Contents())
    {
      if i < 0 || i >= n {
        return Err(OutOfRange);
      }
      var u, j := Locate(i);
      r := Ok(blocks[u][j]);
      FlattenDelete(blocks, u, j);
      blocks := blocks[u := Delete(blocks[u], j)];
      Refill(u);
      if |blocks[u]| == 0 {
        RemoveHole(blocks, b, u);
        RemoveNode(u);
      }
      n := n - 1;
    }

    /** The refilling step of `remove` (lines 342-365) for node `u`, the
        only node that may be empty. */
    method Refill(u: int)
      requires b >= 2 && 0 <= u < |blocks|
      requires Fits(blocks, b) && NonEmptyExcept(blocks, u)
      modifies this
      ensures u < |blocks| && n == old(n)
      ensures Flatten(blocks) == Flatten(old(blocks))
      ensures Fits(blocks, b) && NonEmptyExcept(blocks, u)
    {
      if |blocks[u]| < b - 1 {
        var count := CountSmall(u);
        if count >= b {
          ghost var filled := Gather(u);
        } else {
          BorrowFromNext(u);
          BorrowFromPrev(u);
        }
      }
    }

    /** `validate()`: whether the chain obeys `SourceInvariant`. */
    method Validate() returns (ok: bool)
      ensures ok == SourceInvariant(blocks, b, n)
    {
      var total, k := 0, 0;
      while k < |blocks|
        invariant 0 <= k <= |blocks|
        invariant total == Offset(blocks, k)
        invariant forall m :: 0 <= m < k && m < |blocks| - 1 ==> b - 1 <= |blocks[m]| <= b + 1
        invariant k == |blocks| && k > 0 ==> 1 <= |blocks[k - 1]| <= b + 1
      {
        if k + 1 < |blocks| {
          if |blocks[k]| < b - 1 || |blocks[k]| > b + 1 {
            return false;
          }
        } else if |blocks[k]| < 1 || |blocks[k]| > b + 1 {
          return false;
        }
        OffsetNext(blocks, k);
        total := total + |blocks[k]|;
        k := k + 1;
      }
      OffsetLast(blocks);
      FlattenSize(blocks);
      return total == n;
    }
  }

  /** Three appends to an empty list with `b == 2` fill one node. */
  method FirstBlock() returns (l: SEList<int>)
    ensures fresh(l) && l.Valid() && l.b == 2
    ensures l.blocks == [[1, 2, 3]]
  {
    l := new SEList<int>(2);
    l.Append(1);
    assert l.blocks == [[1]];
    assert [1] + [2] == [1, 2];
    l.Append(2);
    assert l.blocks == [[1, 2]];
    assert [1, 2] + [3] == [1, 2, 3];
    l.Append(3);
  }

  /** Three more fill a second node. */
  method SixBlocks() returns (l: SEList<int>)
    ensures fresh(l) && l.Valid() && l.b == 2
    ensures l.blocks == [[1, 2, 3], [4, 5, 6]]
    ensures l.Contents() == [1, 2, 3, 4, 5, 6]
  {
    l := FirstBlock();
    l.Append(4);
    assert l.blocks == [[1, 2, 3], [4]];
    assert [4] + [5] == [4, 5];
    l.Append(5);
    assert l.blocks == [[1, 2, 3], [4, 5]];
    assert [4, 5] + [6] == [4, 5, 6];
    l.Append(6);
    assert l.blocks == [[1, 2, 3], [4, 5, 6]];
    assert l.blocks[1..] == [[4, 5, 6]];
    assert Flatten(l.blocks[1..]) == [4, 5, 6] + Flatten([]);
  }

  /** Two more open a third node. */
  method EightBlocks() returns (l: SEList<int>)
    ensures fresh(l) && l.Valid() && l.b == 2
    ensures l.blocks == [[1, 2, 3], [4, 5, 6], [7, 8]]
    ensures l.Contents() == [1, 2, 3, 4, 5, 6, 7, 8]
  {
    l := SixBlocks();
    l.Append(7);
    assert l.blocks == [[1, 2, 3], [4, 5, 6], [7]];
    assert [7] + [8] == [7, 8];
    l.Append(8);
    assert l.blocks == [[1, 2, 3], [4, 5, 6], [7, 8]];
    assert l.blocks[1..][1..][1..] == [];
  }

  /** With `b == 2` and the two nodes `[1, 2, 3]` and `[4, 5, 6]`,
      `add(2, 0)` as written spreads them and fails, leaving the list as
      it was. */
  method NearTailDemo() returns (r: Status, s: seq<int>)
    ensures r == Failed(OutOfRange) && s == [1, 2, 3, 4, 5, 6]
  {
    var l := SixBlocks();
    assert NearTailSpread(l.blocks, 2, 2);
    r := l.Add(2, 0);
    s := l.Contents();
  }

  /** The same list with the corrected `add(2, 0)` gains the element at
      index 2. */
  method CorrectedDemo() returns (r: Status, s: seq<int>)
    ensures r == Done && s == [1, 2, 0, 3, 4, 5, 6]
  {
    var l := SixBlocks();
    r := l.AddCorrected(2, 0);
    s := l.Contents();
  }

  /** The first half of the source's own run with `b == 2`: eight
      appends, then `add(2, 99)`, which spreads the first two nodes but is
      not at a near-tail position. */
  method SmallListInsert() returns (l: SEList<int>, r: Status)
    ensures fresh(l) && l.Valid()
    ensures r == Done && l.Contents() == [1, 2, 99, 3, 4, 5, 6, 7, 8]
  {
    l := EightBlocks();
    assert !NearTailSpread(l.blocks, 2, 2) by {
      assert |l.blocks[2]| != 3;
    }
    r := l.Add(2, 99);
  }

  /** The whole run: after the insertion, `remove(3)` three times gives
      back 3, 4 and 5. */
  method SmallListDemo() returns (r: Status, y1: Result<int>, y2: Result<int>, y3: Result<int>, s: seq<int>)
    ensures r == Done && y1 == Ok(3) && y2 == Ok(4) && y3 == Ok(5)
    ensures s == [1, 2, 99, 6, 7, 8]
  {
    var l;
    l, r := SmallListInsert();
    y1 := l.Remove(3);
    assert l.Contents() == [1, 2, 99, 4, 5, 6, 7, 8];
    y2 := l.Remove(3);
    assert l.Contents() == [1, 2, 99, 5, 6, 7, 8];
    y3 := l.Remove(3);
    s := l.Contents();
  }

  /** On a list with `b == 2` holding 1, 2 and 3, `remove(1)` gives back
      2, `remove(7)` is out of range, and `set(0, 9)` gives back 1. */
  method RemoveDemo() returns (y: Result<int>, z: Result<int>, w: Result<int>, s: seq<int>)
    ensures y == Ok(2) && z == Err(OutOfRange) && w == Ok(1) && s == [9, 3]
  {
    var l := new SEList<int>(2);
    l.Append(1);
    l.Append(2);
    l.Append(3);
    assert l.Contents() == [1, 2, 3];
    y := l.Remove(1);
    assert l.Contents() == [1, 3];
    z := l.Remove(7);
    w := l.Set(0, 9);
    s := l.Contents();
  }
}
