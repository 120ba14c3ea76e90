# Array-backed lists of SunnyGitGud/DSA, modelled in Dafny

This project models the sequential list structures of the DSA repository.
Each structure is an imperative class over arrays. Each operation is proved
against the abstract list it stands for, a `seq<T>` called `Contents`.

- **Ring**: `ArrayDeque` and `BDeque` from `Llist/SLList.cpp`. Both are circular
  buffers. `ArrayDeque` doubles and shrinks through `resize`. `BDeque`
  overrides `resize` with a no-op, so its capacity stays `b + 1`. One class
  models both, and a `bounded` flag selects the `BDeque` policy.
- **SpaceEfficientList**: `SEList` from `Llist/SLList.cpp`. It is a doubly-linked
  chain of nodes behind a sentinel, and each node holds a bounded deque of
  at most `b + 1` elements. The chain is the sequence `blocks` of the nodes'
  contents in chain order, and the list is `Flatten(blocks)` (module
  **Blocks**). The loops of `getLocation`, `spread`, `gather`, `add(i, x)`
  and `remove` are imperative methods, one or two loops per method. Each
  method states what it does to `blocks` and that `Flatten(blocks)` does
  not change.
- **CircularArray**: the circular `Array` of `array/arraydeque.cpp`, with its
  copy constructor and its copy and move assignments.
- **ContiguousArray**: the contiguous `Array` of `array/learn.cpp`.
- **DualArray**: `ArrayStack` and `DualArrayDeque` of `dualarraystack.cpp`. The
  deque's list is `Reverse(front) + back`, and `balance` keeps neither stack
  more than three times the size of the other.
- **Rootish**: `RootishArray` of `rootisharray.cpp`. Block `b` has `b + 1` slots.
  `i2b` is characterised by the integer bracket
  `b(b+1)/2 <= i < (b+1)(b+2)/2`.

Shared modules:

- **Circular** holds the circular shifting loops, which both circular buffers run
  in the same form.
- **Contiguous** holds the `std::copy` / `std::copy_backward` shifts of the
  contiguous arrays.
- **Seqs** defines `Insert`, `Delete` and `Reverse` and their algebra.
- **Errors** gives the `out_of_range` and `runtime_error` exceptions as
  `Result`/`Status` values.
- **Capacity** defines `Max`.

## Model

| member | source | states |
|---|---|---|
| Seqs.Insert | Llist/SLList.cpp:49-70 | The list after inserting `x` at `i`: one longer, `x` at `i`, earlier elements in place, later ones one index up |
| Seqs.Delete | Llist/SLList.cpp:77-99 | The list after removing index `i`: one shorter, earlier elements in place, later ones one index down |
| Seqs.DeleteInsert | Llist/SLList.cpp:49-99 | Removing the element just added at `i` gives the list back |
| Seqs.InsertDelete | Llist/SLList.cpp:49-99 | Adding back the removed element at its index gives the list back |
| Seqs.InsertAtEnd | Llist/SLList.cpp:72-75 | `add(n, x)` is appending: inserting at the end gives `s + [x]` |
| Seqs.InsertAtStart | dualarraystack.cpp:99-100 | `add(0, x)` is prepending |
| Seqs.ReverseAt | dualarraystack.cpp:118-124 | Element `k` of the reversed stack is element `fs - 1 - k` of the stack |
| Seqs.ReverseReverse | dualarraystack.cpp:97-100 | Reversing twice gives the list back |
| Seqs.ReverseInsert | dualarraystack.cpp:134-136 | Inserting at stack position `fs - i` inserts at index `i` of the reversed stack |
| Seqs.ReverseDelete | dualarraystack.cpp:145-146 | Removing stack position `fs - i - 1` removes index `i` of the reversed stack |
| Seqs.ReverseUpdate | dualarraystack.cpp:127-128 | Setting stack position `fs - i - 1` sets index `i` of the reversed stack |
| Seqs.ReverseSnoc | dualarraystack.cpp:99-100 | The reverse of `s + [x]` starts with `x` |
| Circular.Wrap | Llist/SLList.cpp:37 | The physical slot of logical index `m` lies in the array |
| Circular.WrapMod | Llist/SLList.cpp:37 | That slot is the source's `(j + m) % a.size()` |
| Circular.ShiftFrontLeft | Llist/SLList.cpp:59-61 | Logical slots `0 .. i-1` take the value of their successors; slots `i .. n` are untouched |
| Circular.ShiftTailRight | Llist/SLList.cpp:64-66 | Slots `i+1 .. n` take the value of their predecessors; slots `0 .. i` are untouched |
| Circular.ShiftFrontRight | Llist/SLList.cpp:84-86 | Slots `1 .. i` take the value of their predecessors; slot 0 and slots after `i` are untouched |
| Circular.ShiftTailLeft | Llist/SLList.cpp:90-92 | Slots `i .. n-2` take the value of their successors; slots before `i` are untouched |
| Circular.CopyInOrder | Llist/SLList.cpp:13-20 | A fresh array holding the `n` elements in logical order from slot 0 |
| Circular.InsertNearHead | Llist/SLList.cpp:56-61 | With the head moved back one slot, the buffer holds `Insert(s, i, x)` |
| Circular.InsertNearTail | Llist/SLList.cpp:62-68 | With the same head, the buffer holds `Insert(s, i, x)` |
| Circular.RemoveNearHead | Llist/SLList.cpp:82-87 | With the head moved forward one slot, the buffer holds `Delete(s, i)` |
| Circular.RemoveNearTail | Llist/SLList.cpp:88-93 | With the same head, the buffer holds `Delete(s, i)` |
| Ring.ArrayDeque.constructor | Llist/SLList.cpp:23-25 | An empty deque with one slot |
| Ring.ArrayDeque.Bounded | Llist/SLList.cpp:115-119 | An empty `BDeque` with `b + 1` slots |
| Ring.ArrayDeque.Size | Llist/SLList.cpp:29-31 | The number of elements |
| Ring.ArrayDeque.Resize | Llist/SLList.cpp:13-20 | The list is unchanged. An `ArrayDeque` moves into `max(1, 2n)` fresh slots with head 0. A `BDeque` keeps its array and head (line 132) |
| Ring.ArrayDeque.Get | Llist/SLList.cpp:33-38 | `Ok(list[i])` exactly when `0 <= i < n`, otherwise `OutOfRange` |
| Ring.ArrayDeque.Set | Llist/SLList.cpp:40-47 | In range: returns the old element and changes only index `i`. Out of range: fails and changes nothing |
| Ring.ArrayDeque.Add | Llist/SLList.cpp:49-70 | Succeeds exactly when `0 <= i <= n`, and the list becomes `Insert(old, i, x)`. A full `ArrayDeque` first grows to `max(1, 2n)` slots. A `BDeque` never changes its array. A failure changes nothing |
| Ring.ArrayDeque.Append | Llist/SLList.cpp:127-130 | The list becomes `old + [x]` |
| Ring.ArrayDeque.Remove | Llist/SLList.cpp:77-99 | Succeeds exactly when `0 <= i < n`: returns `old[i]`, and the list becomes `Delete(old, i)`. An `ArrayDeque` under a third full moves to `max(1, 2n)` fresh slots. A failure changes nothing |
| Ring.AddWhenFull | Llist/SLList.cpp:49-70 | `add(i, x)` on a full `BDeque`, for every `0 <= i <= n`: the `n + 1` elements of `Insert(old, i, x)` go round `n` slots from the new head, so indices 0 and `n` share a slot. Near the head, index 0 wins and the old last element is lost. Otherwise index `n` wins unless `i == 0`. `n` then exceeds the capacity |
| Ring.FullNearHead | Llist/SLList.cpp:56-61 | On a full ring, the head moves back onto the last element's slot, and the `n` slots from it hold the first `n` elements of `Insert(old, i, x)` |
| Ring.FullNearTail | Llist/SLList.cpp:62-68 | On a full ring, slots 1 to `n - 1` hold those elements of `Insert(old, i, x)`, and the head slot holds element `n` (element 0 when `i == 0`) |
| Ring.FullTailShift | Llist/SLList.cpp:64-66 | On a full ring, the first pass (`k == n`) copies the last element into element 0's slot, and the rest of the shift moves the elements after `i` one step away from the head |
| Ring.PutAt | Llist/SLList.cpp:68 | After the tail shift on a full ring, storing `x` at index `i` leaves slots 1 to `n - 1` holding `Insert(old, i, x)` and the head slot holding its element `n` |
| Ring.FullBDeque | Llist/SLList.cpp:456-470 | `BDeque(3)` after appending 10, 20, 30 and `add(0, 5)` holds `[5, 10, 20, 30]` in all 4 of its slots |
| Ring.BDequeDemo | Llist/SLList.cpp:457-473 | That deque holds 5 first, and `remove(1)` gives 10. This run leaves out the overfull `add(40)` that the source makes before its `remove(1)` |
| Ring.OverfullDemo | Llist/SLList.cpp:475-479 | The following `add(40)` replaces 5 by 40, and the size becomes 5 with 4 slots |
| Ring.OverfullFrontDemo | Llist/SLList.cpp:56-61 | On the same full deque, `add(1, 7)` leaves the slots reading `[5, 7, 10, 20]` from the new head: 30 is lost |
| Blocks.FlattenSize | Llist/SLList.cpp:412-447 | The list has as many elements as the block sizes add up to |
| Blocks.FlattenAt | Llist/SLList.cpp:157-182 | Element `j` of block `k` is list element `Offset(k) + j` |
| Blocks.LocationUnique | Llist/SLList.cpp:157-182 | Only one (block, index) pair gives a list index, so both walks of `getLocation` agree |
| Blocks.FlattenSet | Llist/SLList.cpp:263-269 | Setting an element of a block sets the corresponding list element |
| Blocks.FlattenInsertEmpty | Llist/SLList.cpp:184-191 | Linking in an empty node leaves the list unchanged |
| Blocks.FlattenRemoveEmpty | Llist/SLList.cpp:193-197 | Unlinking an empty node leaves the list unchanged |
| Blocks.FlattenShiftBoundary | Llist/SLList.cpp:209-215 | Moving elements across the boundary of two neighbouring nodes leaves the list unchanged |
| Blocks.FlattenInsert | Llist/SLList.cpp:326 | Inserting at index `j` of block `k` inserts at list index `Offset(k) + j` |
| Blocks.FlattenDelete | Llist/SLList.cpp:340 | Removing index `j` of block `k` removes list index `Offset(k) + j` |
| SpaceEfficientList.SourceInvariantValid | Llist/SLList.cpp:412-447 | What `validate` accepts implies the invariant every operation keeps: blocks within `b + 1`, none empty, `n` the list length |
| SpaceEfficientList.NearTailInside | Llist/SLList.cpp:302-326 | A near-tail position is a valid index `i < n` |
| SpaceEfficientList.NearTailLocation | Llist/SLList.cpp:157-182 | At a near-tail position `getLocation` gives the first of the last `b` blocks, at index `b` |
| SpaceEfficientList.AppendedShape | Llist/SLList.cpp:271-278 | `add(x)` appends `x` to the list and keeps every node non-empty and within `b + 1` |
| SpaceEfficientList.RemoveHole | Llist/SLList.cpp:367-370 | Unlinking the one empty node leaves no node empty |
| SpaceEfficientList.SEList.constructor | Llist/SLList.cpp:240-243 | An empty list with no real nodes |
| SpaceEfficientList.SEList.Size | Llist/SLList.cpp:249-251 | The list length |
| SpaceEfficientList.SEList.Empty | Llist/SLList.cpp:253-255 | True exactly for the empty list |
| SpaceEfficientList.SEList.Locate | Llist/SLList.cpp:157-182 | A real node `u` and an index `j` within it, with `Offset(u) + j == i` and `list[i] == blocks[u][j]` |
| SpaceEfficientList.SEList.Get | Llist/SLList.cpp:257-261 | `Ok(list[i])` for `0 <= i < n`, otherwise `OutOfRange` |
| SpaceEfficientList.SEList.Set | Llist/SLList.cpp:263-269 | In range: returns the old element and changes only index `i`. Otherwise it fails with nothing changed |
| SpaceEfficientList.SEList.AddBefore | Llist/SLList.cpp:184-191 | An empty node is linked in at position `t`, and the list is unchanged |
| SpaceEfficientList.SEList.RemoveNode | Llist/SLList.cpp:193-197 | Node `k` is unlinked. If it was empty, the list is unchanged |
| SpaceEfficientList.SEList.BlockAdd | Llist/SLList.cpp:123-125 | `d.add(j, x)` inserts into node `k` exactly when `0 <= j <= size`, and fails with `OutOfRange` otherwise |
| SpaceEfficientList.SEList.MoveLastToNext | Llist/SLList.cpp:211-212 | The last element of node `k` becomes the first of node `k + 1`. Nothing else and not the list changes |
| SpaceEfficientList.SEList.MoveFirstToPrev | Llist/SLList.cpp:223-224 | The first element of node `k + 1` becomes the last of node `k`. Nothing else and not the list changes |
| SpaceEfficientList.SEList.Append | Llist/SLList.cpp:271-278 | `add(x)`: the list becomes `old + [x]`, `n` grows by one, and a new last node is used exactly when there was none or it was full |
| SpaceEfficientList.SEList.FillFromPrev | Llist/SLList.cpp:210-213 | Node `w` is filled to `b` from the back of node `w - 1`, or until that node is empty. The list is unchanged |
| SpaceEfficientList.SEList.WalkAhead | Llist/SLList.cpp:200-204 | The node `b` steps ahead of `u`, or the last node when the chain ends first |
| SpaceEfficientList.SEList.Spread | Llist/SLList.cpp:199-216 | One node more and the list unchanged. The nodes after `u`, up to the new one, hold `b` each. Node `u` keeps a prefix, and the other nodes are untouched |
| SpaceEfficientList.SEList.SpreadBack | Llist/SLList.cpp:209-215 | Nodes `u+1 .. p` hold `b` each, node `u` keeps its first `p - u` elements, and the list is unchanged |
| SpaceEfficientList.SEList.OpenSlot | Llist/SLList.cpp:312-324 | The list is unchanged, every node stays non-empty and within `b + 1`, and node `u` ends with at most `b` elements |
| SpaceEfficientList.SEList.CountFull | Llist/SLList.cpp:293-300 | `r` nodes from `u` on are full, and the scan stops after `b` of them, at the sentinel, or at a node with room |
| SpaceEfficientList.SEList.MakeRoom | Llist/SLList.cpp:290-324 | The list is unchanged and node `u` has room. The slot lies past the end of node `u` exactly at a near-tail position |
| SpaceEfficientList.SEList.Add | Llist/SLList.cpp:280-328 | `add(i, x)` as written: succeeds exactly when `0 <= i <= n` and the position is not near-tail, inserting `x` at `i`. Otherwise it fails with the list unchanged |
| SpaceEfficientList.SEList.AddCorrected | Llist/SLList.cpp:280-328 | `add(i, x)` inserting into the node that holds `i` after a spread: succeeds exactly when `0 <= i <= n`, and then the list is `Insert(old, i, x)` |
| SpaceEfficientList.SEList.GatherFill | Llist/SLList.cpp:219-227 | The first `b - 1` of the `b` nodes from `u` on are each filled towards `b` from their successors. The list is unchanged |
| SpaceEfficientList.SEList.FillFromNext | Llist/SLList.cpp:222-225 | Node `w` is filled to `b` from the front of node `w + 1`, or until that node is empty. The list is unchanged |
| SpaceEfficientList.SEList.Gather | Llist/SLList.cpp:218-237 | `filled`, the chain after the filling, differs from the old chain only in nodes `u` to `u + b - 1`, each holding at most `b`. The new chain is `filled` with the empty nodes among `u + 1 .. u + b - 1` unlinked. So fewer than `b` nodes go, the nodes before `u` stay, and the nodes from `u + b` on stay in order, shifted down. The list is unchanged, and no node is empty or over `b + 1` |
| SpaceEfficientList.SEList.UnlinkEmpty | Llist/SLList.cpp:229-236 | Walking back from node `hi - 1` to `u + 1`, exactly the empty nodes are unlinked: the chain becomes `c[..u + 1] + Compact(c[u + 1..hi]) + c[hi..]`, and the list is unchanged |
| SpaceEfficientList.UnlinkStep | Llist/SLList.cpp:231-235 | One step of that walk: node `w` is unlinked when empty and kept otherwise, and either way the compacted part grows by node `w` |
| SpaceEfficientList.Compact | Llist/SLList.cpp:229-236 | The non-empty entries of a run of nodes, never more entries than the run |
| SpaceEfficientList.CompactEntries | Llist/SLList.cpp:229-236 | Every entry `Compact` keeps is a non-empty entry of the run, and a run with no empty entry is kept whole |
| SpaceEfficientList.GatheredShape | Llist/SLList.cpp:218-237 | The chain `gather` leaves has fewer than `b` nodes fewer, keeps the nodes before `u` and, shifted, those from `u + b` on, and has no node empty or over `b + 1` |
| SpaceEfficientList.SEList.BorrowFromNext | Llist/SLList.cpp:356-359 | Node `u` only grows, from its successor, and the list is unchanged |
| SpaceEfficientList.SEList.BorrowFromPrev | Llist/SLList.cpp:360-363 | Node `u` only grows, from its predecessor, and the list is unchanged |
| SpaceEfficientList.SEList.CountSmall | Llist/SLList.cpp:345-350 | The length of the run of nodes with fewer than `b` elements starting at `u` |
| SpaceEfficientList.SEList.Refill | Llist/SLList.cpp:342-365 | Gathering or borrowing keeps the list and keeps all nodes but `u` non-empty and within `b + 1` |
| SpaceEfficientList.SEList.Remove | Llist/SLList.cpp:330-374 | `Ok(old[i])` and the list becomes `Delete(old, i)` exactly when `0 <= i < n`, otherwise `OutOfRange` with nothing changed. The invariant is kept |
| SpaceEfficientList.SEList.Validate | Llist/SLList.cpp:412-447 | True exactly when every non-last block holds `b - 1 .. b + 1`, the last `1 .. b + 1`, and the sizes add up to `n` |
| SpaceEfficientList.FirstBlock | Llist/SLList.cpp:552-554 | Three appends with `b == 2` give the node `[1, 2, 3]` |
| SpaceEfficientList.SixBlocks | Llist/SLList.cpp:552-554 | Six appends with `b == 2` give the nodes `[1, 2, 3]` and `[4, 5, 6]` |
| SpaceEfficientList.EightBlocks | Llist/SLList.cpp:552-554 | Eight appends with `b == 2` give the nodes `[1, 2, 3]`, `[4, 5, 6]`, `[7, 8]` |
| SpaceEfficientList.NearTailDemo | Llist/SLList.cpp:302-326 | On that six-element list, `add(2, 0)` as written fails, and the list is unchanged |
| SpaceEfficientList.CorrectedDemo | Llist/SLList.cpp:302-326 | The corrected `add(2, 0)` gives `[1, 2, 0, 3, 4, 5, 6]` |
| SpaceEfficientList.SmallListInsert | Llist/SLList.cpp:548-559 | `add(2, 99)` on the eight-element list succeeds |
| SpaceEfficientList.SmallListDemo | Llist/SLList.cpp:548-566 | Three `remove(3)` then give 3, 4 and 5 and leave `[1, 2, 99, 6, 7, 8]` |
| SpaceEfficientList.RemoveDemo | Llist/SLList.cpp:330-374 | `remove(1)` on `[1, 2, 3]` gives 2, `remove(7)` is out of range, and `set(0, 9)` gives 1 |
| CircularArray.Array.constructor | array/arraydeque.cpp:35-39 | An empty array with `len` slots and head 0 |
| CircularArray.Array.Copy | array/arraydeque.cpp:48-59 | A fresh buffer with the same list and capacity, head 0 |
| CircularArray.Array.Move | array/arraydeque.cpp:244-246 | The move constructor the demo presumes: takes over the buffer and leaves the source with no buffer, 0 slots and 0 elements |
| CircularArray.Array.Size | array/arraydeque.cpp:97 | The number of elements |
| CircularArray.Array.Capacity | array/arraydeque.cpp:98 | The slot count, at least the size |
| CircularArray.Array.Empty | array/arraydeque.cpp:99 | True exactly for the empty list |
| CircularArray.Array.Get | array/arraydeque.cpp:102-115 | Element `i` of the list |
| CircularArray.Array.Set | array/arraydeque.cpp:116-122 | Returns the old element, changes only index `i`, and keeps buffer and head |
| CircularArray.Array.Resize | array/arraydeque.cpp:14-31 | The list is unchanged, in `max(1, 2 * length)` fresh slots with head 0 |
| CircularArray.Array.Add | array/arraydeque.cpp:125-145 | The list becomes `Insert(old, i, x)`. A full array first grows to `max(1, 2 * length)` slots with head 0, and otherwise the buffer stays. The head moves back one slot exactly when `i < n / 2` |
| CircularArray.Array.Remove | array/arraydeque.cpp:148-170 | Returns `old[i]`, the list becomes `Delete(old, i)`, and the capacity does not change. The head advances one slot exactly when `i < n / 2` |
| CircularArray.Array.PushBack | array/arraydeque.cpp:173 | The list becomes `old + [x]`. The head stays unless the array grows, which resets it to 0 |
| CircularArray.Array.PopFront | array/arraydeque.cpp:174 | Returns the first element and drops it. The head advances unless a single element is left |
| CircularArray.Array.AssignFrom | array/arraydeque.cpp:62-75 | The list and capacity of `other` in a fresh buffer with head 0. Nothing changes on self-assignment |
| CircularArray.Array.MoveFrom | array/arraydeque.cpp:78-94 | Takes over `other`'s buffer, head and list, and leaves `other` with no buffer, 0 slots and 0 elements. Nothing changes on self-assignment |
| CircularArray.ArrayDemo | array/arraydeque.cpp:188-213 | The demo gives 20, then 10, then `get(1) == 30`, and ends as `[15, 99]` with 4 slots |
| CircularArray.DemoArray | array/arraydeque.cpp:188-211 | After the demo's first steps, the array holds 2 elements in 4 slots with head 1 |
| CircularArray.GrowDemoArray | array/arraydeque.cpp:219-223 | Ten appends grow it twice, to 16 slots, and the last growth resets the head to 0 |
| CircularArray.DrainDemoArray | array/arraydeque.cpp:225-230 | Popping every element leaves it empty, keeps its 16 slots and leaves the head at slot 11 |
| CircularArray.CopySource | array/arraydeque.cpp:188-234 | The array the demo copies holds `[42, 43]` in 16 slots with head 11 |
| CircularArray.CopyDemo | array/arraydeque.cpp:232-241 | The copy and the copy-assigned array both hold `[42, 43]` with head 0, and the copy-assigned one keeps the 16 slots |
| CircularArray.MoveInitDemo | array/arraydeque.cpp:237-246 | `assign` is copy-assigned from `arr`. As written, `moved` is then copy-constructed from it: two elements in 16 slots, and `assign.size()` stays 2 |
| CircularArray.MoveInitCorrectedDemo | array/arraydeque.cpp:237-246 | The same `assign`, but with a move constructor: `moved` has two elements in 16 slots, and `assign.size()` is 0 |
| CircularArray.MoveAssignDemo | array/arraydeque.cpp:78-94 | Move assignment transfers `[42, 43]` and leaves the source with size and capacity 0 |
| Contiguous.CopyPrefix | array/learn.cpp:40-44 | A fresh array of `len` slots that agrees with the source on its first `n` |
| Contiguous.ShiftLeft | array/learn.cpp:115 | `std::copy` moves `a[i+1 .. n-1]` one slot down, leaving the slots before `i` |
| Contiguous.ShiftRight | array/learn.cpp:125 | `std::copy_backward` moves `a[i .. n-1]` one slot up, leaving slots `0 .. i` |
| ContiguousArray.Array.constructor | array/learn.cpp:27-30 | An empty array with `len` slots |
| ContiguousArray.Array.Copy | array/learn.cpp:40-44 | A fresh buffer with the same list and capacity |
| ContiguousArray.Array.Size | array/learn.cpp:92-94 | The number of elements |
| ContiguousArray.Array.Capacity | array/learn.cpp:96-98 | The slot count, at least the size |
| ContiguousArray.Array.Get | array/learn.cpp:100-103 | Element `i` of the list |
| ContiguousArray.Array.Set | array/learn.cpp:105-110 | Returns the old element and changes only index `i` |
| ContiguousArray.Array.Resize | array/learn.cpp:19-24 | The list is unchanged, in `max(1, 2n)` fresh slots |
| ContiguousArray.Array.Add | array/learn.cpp:120-128 | The list becomes `Insert(old, i, x)`. A full array first grows to `max(1, 2n)` slots |
| ContiguousArray.Array.Remove | array/learn.cpp:112-118 | Returns `old[i]`, the list becomes `Delete(old, i)`, and the capacity does not change |
| ContiguousArray.Array.PushBack | array/learn.cpp:130-132 | The list becomes `old + [x]` |
| ContiguousArray.Array.AssignFrom | array/learn.cpp:47-59 | The list and capacity of `other` in a fresh buffer. Nothing changes on self-assignment |
| ContiguousArray.Array.MoveFrom | array/learn.cpp:62-80 | Takes over `other`'s buffer and list, and leaves `other` with no buffer, 0 slots and 0 elements |
| ContiguousArray.ArrayDemo | array/learn.cpp:138-182 | The demo reaches 4 slots, `set(2, 25)` gives 20, `remove(0)` gives 10, and the moved array holds three elements from 15 to 30 while its source has size and capacity 0 |
| DualArray.ArrayStack.constructor | dualarraystack.cpp:23-27 | An empty stack with `max(cap, 1)` slots |
| DualArray.ArrayStack.Copy | dualarraystack.cpp:29-35 | A fresh buffer with the same list and capacity |
| DualArray.ArrayStack.Size | dualarraystack.cpp:53-55 | The number of elements |
| DualArray.ArrayStack.Get | dualarraystack.cpp:57-59 | Element `i` |
| DualArray.ArrayStack.Set | dualarraystack.cpp:61-65 | Returns the old element and changes only index `i` |
| DualArray.ArrayStack.Resize | dualarraystack.cpp:11-20 | The list is unchanged, in `max(2 * capacity, 1)` fresh slots |
| DualArray.ArrayStack.Add | dualarraystack.cpp:67-73 | The list becomes `Insert(old, i, x)`. A full stack first doubles |
| DualArray.ArrayStack.Remove | dualarraystack.cpp:75-81 | Returns `old[i]`, and the list becomes `Delete(old, i)` |
| DualArray.ArrayStack.AssignFrom | dualarraystack.cpp:38-48 | The list and capacity of `other` in a fresh buffer. Nothing changes on self-assignment |
| DualArray.SplitBalanced | dualarraystack.cpp:93-95 | Splitting `n >= 2` elements as `n/2` and `n - n/2` satisfies the balance condition |
| DualArray.FrontInsert | dualarraystack.cpp:135-136 | `front.add(fs - i, x)` inserts at index `i` of the deque |
| DualArray.BackInsert | dualarraystack.cpp:137-138 | `back.add(i - fs, x)` inserts at index `i` of the deque |
| DualArray.FrontDelete | dualarraystack.cpp:145-146 | `front.remove(fs - i - 1)` removes index `i` of the deque |
| DualArray.BackDelete | dualarraystack.cpp:147-148 | `back.remove(i - fs)` removes index `i` of the deque |
| DualArray.PrefixStep | dualarraystack.cpp:99-100 | One more `add(0, get(i))` extends the reversed prefix |
| DualArray.SliceStep | dualarraystack.cpp:104-105 | One more `add(i, get(nf + i))` extends the suffix |
| DualArray.DualArrayDeque.constructor | dualarraystack.cpp:113 | An empty deque of two fresh stacks |
| DualArray.DualArrayDeque.Size | dualarraystack.cpp:115-117 | The deque's length |
| DualArray.DualArrayDeque.Get | dualarraystack.cpp:118-124 | Element `i` of `Reverse(front) + back` |
| DualArray.DualArrayDeque.Set | dualarraystack.cpp:126-132 | Returns the old element and changes only index `i` |
| DualArray.DualArrayDeque.Add | dualarraystack.cpp:134-141 | The list becomes `Insert(old, i, x)`, and with two or more elements the stacks are balanced |
| DualArray.DualArrayDeque.Remove | dualarraystack.cpp:143-152 | Returns `old[i]`, the list becomes `Delete(old, i)`, and with two or more elements the stacks are balanced |
| DualArray.DualArrayDeque.Take | dualarraystack.cpp:144-149 | Before rebalancing: returns `old[i]`, and the list becomes `Delete(old, i)` |
| DualArray.DualArrayDeque.ReversedPrefix | dualarraystack.cpp:97-100 | A fresh stack holding the first `nf` elements reversed |
| DualArray.DualArrayDeque.Suffix | dualarraystack.cpp:102-105 | A fresh stack holding the elements from `nf` on |
| DualArray.DualArrayDeque.Balance | dualarraystack.cpp:91-110 | The list is unchanged. Balanced stacks are left alone. Otherwise front gets `n/2` elements and back the rest, after which the stacks are balanced |
| DualArray.BuildDemo | dualarraystack.cpp:159-161 | Three insertions give `[10, 15, 20]` |
| DualArray.DequeDemo | dualarraystack.cpp:156-180 | `get` reads 10, 15, 20. `set(1, 16)` gives 15. `remove(0)` gives 10 and leaves `[16, 20]` |
| Rootish.TriNext | rootisharray.cpp:18-21 | Growing by block `r` adds `r + 1` slots |
| Rootish.TriMono | rootisharray.cpp:23-30 | More blocks never hold fewer slots |
| Rootish.I2BFrom | rootisharray.cpp:13-16 | The block bracketing `i`, searched for from block `b` on |
| Rootish.I2B | rootisharray.cpp:13-16 | `i2b(i)`: `b(b+1)/2 <= i < (b+1)(b+2)/2`, so the in-block offset `i - b(b+1)/2` lies in `[0, b]` |
| Rootish.I2BUnique | rootisharray.cpp:13-16 | Only that block brackets `i` |
| Rootish.BlockExists | rootisharray.cpp:59-61 | An index below the slot count of `r` blocks lies in one of them |
| Rootish.SlotCountTri | rootisharray.cpp:18-21 | Blocks of sizes `1 .. r` hold `r(r+1)/2` slots |
| Rootish.RootishArray.Capacity | rootisharray.cpp:146-147 | The slot count is `r(r+1)/2` and at least `n` |
| Rootish.RootishArray.constructor | rootisharray.cpp:33 | An empty array with no blocks |
| Rootish.RootishArray.Size | rootisharray.cpp:47-49 | The number of elements |
| Rootish.RootishArray.Empty | rootisharray.cpp:51-53 | True exactly for the empty list |
| Rootish.RootishArray.Put | rootisharray.cpp:68-71 | Writes the slot of index `k` and no other |
| Rootish.RootishArray.Get | rootisharray.cpp:55-62 | `Ok(list[i])` exactly when `0 <= i < n`, otherwise `OutOfRange` |
| Rootish.RootishArray.Set | rootisharray.cpp:64-73 | In range: returns the old element and changes only index `i`. Otherwise it fails with nothing changed |
| Rootish.RootishArray.Grow | rootisharray.cpp:18-21 | Appends a fresh block of `r + 1` slots. The list and earlier blocks are unchanged |
| Rootish.RootishArray.Shrink | rootisharray.cpp:23-30 | Drops trailing blocks until none are left or `(r-2)(r-1)/2 < n`, and no further: if any block was dropped, the remaining `r` blocks have `(r-1)r/2 >= n`. The list is unchanged |
| Rootish.RootishArray.ShiftUp | rootisharray.cpp:85-87 | Elements `i .. n-2` move one index up, and those before `i` stay |
| Rootish.RootishArray.ShiftDown | rootisharray.cpp:97-99 | Elements `i+1 .. n-1` move one index down, and those before `i` stay |
| Rootish.RootishArray.Add | rootisharray.cpp:75-89 | Succeeds exactly when `0 <= i <= n`, and the list becomes `Insert(old, i, x)`. One block is added exactly when all slots were in use. A failure changes nothing |
| Rootish.RootishArray.InsertAt | rootisharray.cpp:84-88 | With a free slot, the list becomes `Insert(old, i, x)` and the blocks stay |
| Rootish.RootishArray.Remove | rootisharray.cpp:91-107 | Succeeds exactly when `0 <= i < n`: returns `old[i]`, and the list becomes `Delete(old, i)`. Afterwards `r == 0` or `(r-2)(r-1)/2 < n`, only trailing blocks are dropped, and if any was dropped then `(r-1)r/2 >= n`. A failure changes nothing |
| Rootish.RootishArray.PushBack | rootisharray.cpp:109-111 | The list becomes `old + [x]`, with one more block exactly when it was full |
| Rootish.RootishArray.PopBack | rootisharray.cpp:116-121 | On an empty array, `EmptyContainer` with nothing changed. Otherwise it returns and drops the last element |
| Rootish.RootishArray.Clear | rootisharray.cpp:39-45 | No blocks and no elements |
| Rootish.BlockCountStep | rootisharray.cpp:79-82 | From no blocks, `push_back` keeps the fewest blocks that hold the elements |
| Rootish.TenInFour | rootisharray.cpp:158-160 | Ten elements need exactly four blocks |
| Rootish.PushTens | rootisharray.cpp:158-160 | Ten `push_back(i * 10)` give `[0, 10, ..., 90]` in four blocks |
| Rootish.RootishDemo | rootisharray.cpp:154-175 | `get(7)` is 70. `add(3, 999)` grows from 4 to 5 blocks. `remove(5)` gives 40 and leaves 10 elements |

## Left out

- Printing, `main` and console logging are left out. This covers `print`, `printDetailed`, `printStructure` and the messages in constructors, destructors and `resize`. The demos in `main` are modelled as the methods named `...Demo`. The `SEList(3)` run (Llist/SLList.cpp:490-543) is not among them.
- Destructors, `delete`, `SEList::clear` (Llist/SLList.cpp:245-247, 376-381) and memory freeing are left out. Unlinking a node removes its entry from `blocks`, and a dropped block is no longer in `blocks`.
- The sentinel's own empty `BDeque` (Llist/SLList.cpp:155, 240) is not modelled. The sentinel is the position past the last real node.
- SpaceEfficientList.SEList: each node's `BDeque` is modelled by its contents, a sequence of at most `b + 1` elements, not by a `Ring.ArrayDeque` object. The per-node circular layout and the aliasing of node pointers are not captured. Ring models those deques' own layout separately.
- SpaceEfficientList.SEList.constructor requires `b >= 2`, which the source does not check. With `b == 1`, `spread`'s backward walk can step onto the sentinel (Llist/SLList.cpp:202-215).
- SpaceEfficientList.SEList.Remove does not promise the lower block bound that `validate` checks, because the borrowing path (Llist/SLList.cpp:356-363) can leave a non-last node with fewer than `b - 1` elements. It promises the upper bound `b + 1`, no empty node and `n` equal to the list length.
- Ring.ArrayDeque.Add requires a free slot when the deque is a `BDeque`. What the source does without one, at any position, is modelled separately on the bare ring by `Ring.AddWhenFull` (see Findings).
- Rootish.I2B: the `double` square root and ceiling of `i2b` (rootisharray.cpp:14-15) are replaced by their integer characterisation. Floating-point rounding is not modelled.
- Integer overflow is not modelled, because integers are unbounded. This covers `2 * n`, `r * (r + 1) / 2` and `3 * n`.
- Index checks that the sources write as `assert` (array/arraydeque.cpp, array/learn.cpp) are preconditions. So are the indices that dualarraystack.cpp does not check at all. Thrown exceptions are `Result`/`Status` values.
- `BDeque`'s overriding of the virtual `resize` is modelled by the `bounded` flag of one class, not by virtual dispatch.
- arrayexcercise/bulkinsertiontemplate.cpp is not part of this model. Its operations are empty stubs around timing code.

## Findings

| source | as written | input that shows it | evidently intended | confidence | as-written member | corrected member |
|---|---|---|---|---|---|---|
| Llist/SLList.cpp:302-326 | After `spread(u)` at the tail, `u` keeps only `b - 1` elements, but the insertion still goes to `u` at the saved index `ell.j`, which can be `b` | `b = 2`, six `add(x)` calls giving nodes `[1,2,3]`, `[4,5,6]`, then `add(2, x)`: `u->d.add(2, x)` on a node of size 1 throws `out_of_range` after elements were moved | Insert into the node that holds position `i` after the spread; `add(i, x)` succeeds for every `0 <= i <= n` | high (not executed) | SpaceEfficientList.SEList.Add, SpaceEfficientList.NearTailDemo | SpaceEfficientList.SEList.AddCorrected, SpaceEfficientList.CorrectedDemo |
| array/arraydeque.cpp:244-246 | `Array<int> moved = std::move(assign);` runs the copy constructor. The class declares a copy constructor, both assignments and a destructor, so it has no move constructor | the demo itself: `assign.size()` is 2, not the 0 its comment expects | A move constructor that leaves the source empty | high (not executed) | CircularArray.MoveInitDemo | CircularArray.Array.Move, CircularArray.MoveInitCorrectedDemo |
| Llist/SLList.cpp:475-478 | `add(40)` on the full `BDeque(3)` holding `[5, 10, 20, 30]`: `resize()` is a no-op, so `x` is written to slot `(j + n) % 4`, the slot of element 0. An insertion at any other position of a full `BDeque` also loses an element | the demo itself: 5 is overwritten by 40, and the size becomes 5 with 4 slots | Reject or avoid an insertion into a full `BDeque`, as its comment's claim of room presumes | high (not executed) | Ring.AddWhenFull, Ring.OverfullDemo, Ring.OverfullFrontDemo | Ring.ArrayDeque.Add, Ring.BDequeDemo |
