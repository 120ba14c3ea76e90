/** The abstract list operations that every structure of the model is
    specified against: insertion and deletion at a position, and the
    reversal used by the two-stack deque. */
module Seqs {

  /** `s` with `x` inserted so that it lands at index `i`. */
  function Insert<T>(s: seq<T>, i: int, x: T): (r: seq<T>)
    requires 0 <= i <= |s|
    ensures |r| == |s| + 1 && r[i] == x
    ensures forall k :: 0 <= k < i ==> r[k] == s[k]
    ensures forall k :: i < k < |r| ==> r[k] == s[k - 1]
  {
    s[..i] + [x] + s[i..]
  }

  /** `s` without the element at index `i`. */
  function Delete<T>(s: seq<T>, i: int): (r: seq<T>)
    requires 0 <= i < |s|
    ensures |r| == |s| - 1
    ensures forall k :: 0 <= k < i ==> r[k] == s[k]
    ensures forall k :: i <= k < |r| ==> r[k] == s[k + 1]
  {
    s[..i] + s[i + 1..]
  }

  /** Deleting what was just inserted gives the list back. */
  lemma DeleteInsert<T>(s: seq<T>, i: int, x: T)
    requires 0 <= i <= |s|
    ensures Delete(Insert(s, i, x), i) == s
  {
    assert Delete(Insert(s, i, x), i) == s[..i] + s[i..];
    assert s[..i] + s[i..] == s;
  }

  /** Re-inserting what was just deleted gives the list back. */
  lemma InsertDelete<T>(s: seq<T>, i: int)
    requires 0 <= i < |s|
    ensures Insert(Delete(s, i), i, s[i]) == s
  {
    var r := Insert(Delete(s, i), i, s[i]);
    assert forall k :: 0 <= k < |s| ==> r[k] == s[k];
  }

  /** Inserting at the end is appending. */
  lemma InsertAtEnd<T>(s: seq<T>, x: T)
    ensures Insert(s, |s|, x) == s + [x]
  {
    assert s[|s|..] == [];
  }

  /** Inserting at the start is prepending. */
  lemma InsertAtStart<T>(s: seq<T>, x: T)
    ensures Insert(s, 0, x) == [x] + s
  {
    assert s[..0] == [];
  }

  /** Inserting inside the middle part of `p + c + q` inserts into `c`. */
  lemma InsertInside<T>(p: seq<T>, c: seq<T>, q: seq<T>, j: int, x: T)
    requires 0 <= j <= |c|
    ensures Insert(p + c + q, |p| + j, x) == p + Insert(c, j, x) + q
  {
    var l, r := Insert(p + c + q, |p| + j, x), p + Insert(c, j, x) + q;
    assert |l| == |r|;
    forall k | 0 <= k < |l|
      ensures l[k] == r[k]
    {
      if k < |p| {
      } else if k < |p| + j {
      } else if k == |p| + j {
      } else if k <= |p| + |c| {
      } else {
      }
    }
  }

  /** Deleting inside the middle part of `p + c + q` deletes from `c`. */
  lemma DeleteInside<T>(p: seq<T>, c: seq<T>, q: seq<T>, j: int)
    requires 0 <= j < |c|
    ensures Delete(p + c + q, |p| + j) == p + Delete(c, j) + q
  {
    var l, r := Delete(p + c + q, |p| + j), p + Delete(c, j) + q;
    assert |l| == |r|;
    forall k | 0 <= k < |l|
      ensures l[k] == r[k]
    {
      if k < |p| {
      } else if k < |p| + j {
      } else if k < |p| + |c| - 1 {
      } else {
      }
    }
  }

  /** Inserting into the right part of `p + c` inserts into `c`. */
  lemma InsertRight<T>(p: seq<T>, c: seq<T>, j: int, x: T)
    requires 0 <= j <= |c|
    ensures Insert(p + c, |p| + j, x) == p + Insert(c, j, x)
  {
    var l, r := Insert(p + c, |p| + j, x), p + Insert(c, j, x);
    assert |l| == |r|;
    forall k | 0 <= k < |l|
      ensures l[k] == r[k]
    {
      if k < |p| {
      } else if k < |p| + j {
      } else if k == |p| + j {
      } else {
      }
    }
  }

  /** Inserting into the left part of `c + q` inserts into `c`. */
  lemma InsertLeft<T>(c: seq<T>, q: seq<T>, j: int, x: T)
    requires 0 <= j <= |c|
    ensures Insert(c + q, j, x) == Insert(c, j, x) + q
  {
    var l, r := Insert(c + q, j, x), Insert(c, j, x) + q;
    assert |l| == |r|;
    forall k | 0 <= k < |l|
      ensures l[k] == r[k]
    {
      if k < j {
      } else if k == j {
      } else if k <= |c| {
      } else {
      }
    }
  }

  /** Deleting from the right part of `p + c` deletes from `c`. */
  lemma DeleteRight<T>(p: seq<T>, c: seq<T>, j: int)
    requires 0 <= j < |c|
    ensures Delete(p + c, |p| + j) == p + Delete(c, j)
  {
    var l, r := Delete(p + c, |p| + j), p + Delete(c, j);
    assert |l| == |r|;
    forall k | 0 <= k < |l|
      ensures l[k] == r[k]
    {
      if k < |p| {
      } else if k < |p| + j {
      } else {
      }
    }
  }

  /** Deleting from the left part of `c + q` deletes from `c`. */
  lemma DeleteLeft<T>(c: seq<T>, q: seq<T>, j: int)
    requires 0 <= j < |c|
    ensures Delete(c + q, j) == Delete(c, j) + q
  {
    var l, r := Delete(c + q, j), Delete(c, j) + q;
    assert |l| == |r|;
    forall k | 0 <= k < |l|
      ensures l[k] == r[k]
    {
      if k < j {
      } else if k < |c| - 1 {
      } else {
      }
    }
  }

  function Reverse<T>(s: seq<T>): (r: seq<T>)
    ensures |r| == |s|
  {
    if s == [] then [] else Reverse(s[1..]) + [s[0]]
  }

  /** Index `k` of the reversal is index `|s| - 1 - k` of the original. */
  lemma {:induction false} ReverseAt<T>(s: seq<T>, k: int)
    requires 0 <= k < |s|
    ensures Reverse(s)[k] == s[|s| - 1 - k]
  {
    if k < |s| - 1 {
      ReverseAt(s[1..], k);
    }
  }

  /** The reversal is characterised pointwise. */
  lemma ReverseIndexed<T>(s: seq<T>, r: seq<T>)
    requires |r| == |s|
    requires forall k :: 0 <= k < |s| ==> r[k] == s[|s| - 1 - k]
    ensures r == Reverse(s)
  {
    forall k | 0 <= k < |s| ensures r[k] == Reverse(s)[k] {
      ReverseAt(s, k);
    }
  }

  /** Reversal is its own inverse. */
  lemma ReverseReverse<T>(s: seq<T>)
    ensures Reverse(Reverse(s)) == s
  {
    forall k | 0 <= k < |s| ensures Reverse(Reverse(s))[k] == s[k] {
      ReverseAt(Reverse(s), k);
      ReverseAt(s, |s| - 1 - k);
    }
  }

  /** Prepending to a list appends to its reversal. */
  lemma ReversePrepend<T>(x: T, s: seq<T>)
    ensures Reverse([x] + s) == Reverse(s) + [x]
  {
    assert ([x] + s)[1..] == s;
  }

  /** Inserting at position `|f| - i` of a stack that holds its elements
      in reverse inserts at position `i` of the list it stands for. */
  lemma ReverseInsert<T>(f: seq<T>, i: int, x: T)
    requires 0 <= i <= |f|
    ensures Reverse(Insert(f, |f| - i, x)) == Insert(Reverse(f), i, x)
  {
    var g := Insert(f, |f| - i, x);
    var r := Insert(Reverse(f), i, x);
    forall k | 0 <= k < |r| ensures r[k] == g[|g| - 1 - k] {
      if k < i {
        ReverseAt(f, k);
      } else if k > i {
        ReverseAt(f, k - 1);
      }
    }
    ReverseIndexed(g, r);
  }

  /** Deleting position `|f| - 1 - i` of a reversed stack deletes
      position `i` of the list it stands for. */
  lemma ReverseDelete<T>(f: seq<T>, i: int)
    requires 0 <= i < |f|
    ensures Reverse(Delete(f, |f| - 1 - i)) == Delete(Reverse(f), i)
  {
    var g := Delete(f, |f| - 1 - i);
    var r := Delete(Reverse(f), i);
    forall k | 0 <= k < |r| ensures r[k] == g[|g| - 1 - k] {
      if k < i {
        ReverseAt(f, k);
      } else {
        ReverseAt(f, k + 1);
      }
    }
    ReverseIndexed(g, r);
  }

  /** Appending to a list prepends to its reversal. */
  lemma ReverseSnoc<T>(s: seq<T>, x: T)
    ensures Reverse(s + [x]) == [x] + Reverse(s)
  {
    var g, r := s + [x], [x] + Reverse(s);
    forall k | 0 <= k < |r| ensures r[k] == g[|g| - 1 - k] {
      if k > 0 {
        ReverseAt(s, k - 1);
      }
    }
    ReverseIndexed(g, r);
  }

  /** Overwriting position `|f| - 1 - i` of a reversed stack overwrites
      position `i` of the list it stands for. */
  lemma ReverseUpdate<T>(f: seq<T>, i: int, x: T)
    requires 0 <= i < |f|
    ensures Reverse(f[|f| - 1 - i := x]) == Reverse(f)[i := x]
  {
    var g, r := f[|f| - 1 - i := x], Reverse(f)[i := x];
    forall k | 0 <= k < |r| ensures r[k] == g[|g| - 1 - k] {
      if k != i {
        ReverseAt(f, k);
      }
    }
    ReverseIndexed(g, r);
  }
}
