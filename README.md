# Open Data Structures containers in Dafny

This project models the core of a C++ collection of textbook sequential
containers and proves what each operation does to the abstract contents:

- `Array`, the bounds-checked fixed-length buffer under every array-based container;
- the growable lists `ArrayStack` and `FastArrayStack`;
- the circular-buffer queues, both called `ArrayQueue` (one in `src/arraylists`, one in `src/queues`);
- the circular-buffer deques, both called `ArrayDeque` (one in `src/lists`, one in `src/arraylists`);
- `DualArrayDeque`, a list kept in two `ArrayStack`s;
- the linked lists `SLList` and `DLList`;
- the unbalanced `BinarySearchTree`, the `Treap`, and the traversals of `RecursiveBinaryTree`.

Every array container is a Dafny `class` over an `array`. It has a ghost
`Contents` sequence, and each method is proved to refine the matching sequence
edit (`SeqEdit.Insert`, `SeqEdit.Delete`, append, drop-first). The proofs also
cover the capacity after each resize and the start index `j` of the ring buffers.

The ring buffers share the module `Circular`:

- `Window` reads the `n` live elements that start at slot `j`.
- The relinearising copy of `resize` is written once, in `Relinearize`.
- So are the shortest-side shift loops of the deques' `add` and `remove`, in `InsertAt` and `DeleteAt`.

The linked lists are classes over node objects:

- `SLList` keeps a ghost `Nodes` sequence.
- `DLList` keeps a ghost `Ring` sequence: the sentinel, the element nodes in order, then the sentinel again.
- Each pointer write is proved to keep the ring linked: every `next` has its matching `prev`.

The trees live in an arena `seq<BTNode>`, where a pointer is an index and `-1`
is `nullptr`. The ghost set `N` holds the live ids, and `S[k]` is the set of
ids in the subtree under `k`. The search-tree invariant is
`BinaryTrees.SearchTree`. The treap's heap invariant is `BinaryTreesTreap.Heap`,
over a priority sequence indexed like the arena.

The tree classes own the arena and the root. Their `Contents` is the set of
stored values. The loops that walk and rewire the tree are methods over the
arena values. Each pointer rewiring is one step: `Splice`, `RotateLeft`,
`RotateRight`, or hanging a new leaf.

Scenario methods replay the driver programs under `spec/src`. Each one proves
the values those drivers print.

## Model

| member | source | states |
|---|---|---|
| Arrays.Array.Default | src/Array.cpp:21-24 | the default buffer has exactly one slot |
| Arrays.Array.constructor | src/Array.cpp:27-30 | `Array(len)` has exactly `len` slots |
| Arrays.Array.Length | src/Array.cpp:67-69 | the recorded length is the number of slots of the owned buffer |
| Arrays.Array.At | src/Array.cpp:54-60 | an index in `[0, length)` reads that slot; any other index is `out_of_range` |
| Arrays.Array.Put | src/Array.cpp:54-60 | a write in range changes exactly that slot; out of range it fails and changes nothing; the length never changes |
| Arrays.Array.Assign | src/Array.cpp:39-45 | after `a = b`, `a` has `b`'s former buffer, length and contents |
| Arrays.WriteThenRead | src/Array.cpp:54-60 | a value written at `i` is read back at `i`, and a different slot `k` keeps its old value |
| SeqEdit.DeleteInsert | src/lists/ArrayStack.cpp:76-101 | removing at `i` right after adding at `i` restores the list, so `remove` undoes `add` |
| SeqEdit.InsertDelete | src/lists/ArrayStack.cpp:76-101 | re-adding a removed element at its old index restores the list |
| ListsArrayStack.ArrayStack.constructor | include/ds/lists.h:22-34 | a new stack is empty, over a one-slot buffer |
| ListsArrayStack.ArrayStack.Resize | src/lists/ArrayStack.cpp:41-47 | the new buffer has `max(2n, 1)` slots and holds the same list in the same order |
| ListsArrayStack.ArrayStack.Size | src/lists/ArrayStack.cpp:50-52 | the result is the length of the list |
| ListsArrayStack.ArrayStack.Get | src/lists/ArrayStack.cpp:58-60 | an index in the list reads that element; an index past the list but inside the buffer reads the stale slot; one outside the buffer is `out_of_range` |
| ListsArrayStack.ArrayStack.Set | src/lists/ArrayStack.cpp:66-70 | returns the previous value at `i` and changes only position `i` |
| ListsArrayStack.ArrayStack.Add | src/lists/ArrayStack.cpp:76-83 | the list becomes `old[..i] + [x] + old[i..]`; the buffer grows to `max(2n, 1)` exactly when it was full |
| ListsArrayStack.ArrayStack.ShiftUp | src/lists/ArrayStack.cpp:78-80 | after the loop, the slots before `i` keep their elements and each element from `i` on sits one slot higher |
| ListsArrayStack.ArrayStack.Remove | src/lists/ArrayStack.cpp:92-101 | returns `old[i]`, deletes it from the list, and shrinks the buffer to `max(2n, 1)` exactly when `length >= 3n` |
| ListsArrayStack.ListCheck | spec/src/list_spec.cpp:7-23 | `add(0,1)`, `add(0,2)`, `add(0,3)` read back 3, 2, 1; `set(0,0)` then reads 0; after `remove(0)`, index 0 holds 2 |
| ListsFastArrayStack.FastArrayStack.constructor | include/ds/lists.h:37-50 | a new stack is empty, over a one-slot buffer |
| ListsFastArrayStack.FastArrayStack.Resize | src/lists/FastArrayStack.cpp:9-13 | the block copy puts the same list, in order, into `max(2n, 1)` fresh slots |
| ListsFastArrayStack.FastArrayStack.Size | src/lists/FastArrayStack.cpp:17-19 | the result is the length of the list |
| ListsFastArrayStack.FastArrayStack.Get | src/lists/FastArrayStack.cpp:23-25 | in-list reads give the element; reads past the buffer are `out_of_range` |
| ListsFastArrayStack.FastArrayStack.Set | src/lists/FastArrayStack.cpp:29-33 | returns the previous value and touches only index `i` |
| ListsFastArrayStack.FastArrayStack.Add | src/lists/FastArrayStack.cpp:37-42 | the backward block copy and the write make the list `old[..i] + [x] + old[i..]`, growing exactly when full |
| ListsFastArrayStack.FastArrayStack.Remove | src/lists/FastArrayStack.cpp:46-55 | returns `old[i]`, the list loses index `i`, and the buffer shrinks exactly when `length >= 3n` |
| ListsFastArrayStack.ListCheck | spec/src/list_spec.cpp:7-23 | the same calls give the same readings, 3, 2, 1, 0, 2, as on `ArrayStack` |
| Circular.WrapIsMod | src/arraylists/ArrayQueue.cpp:77-81 | the wrapped index the containers form is the source's `%` on non-negative operands |
| Circular.Window | src/arraylists/ArrayQueue.cpp:77-92 | the logical element `k` of a window starting at `j` is the slot `(j + k) % length` |
| Circular.WindowAppend | src/arraylists/ArrayQueue.cpp:77-81 | writing `x` into slot `(j + n) % length` of a non-full buffer appends `x` to the window |
| Circular.WindowAdvance | src/arraylists/ArrayQueue.cpp:85-92 | advancing `j` by one slot drops exactly the oldest element |
| Circular.WindowAtZero | src/arraylists/ArrayQueue.cpp:60-67 | a window at slot 0 is the buffer's prefix |
| Circular.Relinearize | src/arraylists/ArrayQueue.cpp:60-67 | window element `k` moves to slot `k` of `max(1, 2n)` fresh slots, so the list is unchanged with `j = 0` |
| Circular.InsertAt | src/lists/ArrayDeque.cpp:78-88 | the list becomes `Insert(old, i, x)`; `j` steps back one slot (wrapping) exactly when `i < n/2` |
| Circular.WindowAfterShift | src/lists/ArrayDeque.cpp:78-88 | once the elements before `i` sit at the new start and the rest one slot further, writing `x` into the gap inserts it at `i` |
| Circular.ShiftFirstBack | src/lists/ArrayDeque.cpp:79-82 | the loop moves logical elements `[0, i)` back one slot and leaves `[i, n)` in place |
| Circular.ShiftLastForward | src/lists/ArrayDeque.cpp:84-86 | the loop, with `%`, moves logical elements `[i, n)` forward one slot and leaves `[0, i)` in place |
| Circular.DeleteAt | src/lists/ArrayDeque.cpp:99-109 | returns logical `old[i]`; the list becomes `Delete(old, i)`; `j` advances one slot exactly when `i < n/2` |
| Circular.ShiftFirstForward | src/lists/ArrayDeque.cpp:100-104 | the loop moves logical elements `[0, i)` forward one slot and leaves those after `i` in place |
| Circular.ShiftLastBack | src/lists/ArrayDeque.cpp:105-108 | the loop moves logical elements `(i, n)` back one slot and leaves `[0, i)` in place |
| Circular.ShiftLastForwardAsWritten | src/lists/ArrayDeque.cpp:84-86 | the loop as written, reading slot `(j + k - 1) & length`, keeps the buffer length or throws `out_of_range` |
| Circular.AddAsWrittenLosesElement | src/lists/ArrayDeque.cpp:85 | on a new deque, `add(0, a)`, `add(1, b)`, `add(1, c)` with `&` fill slot 2 from slot `1 & 4 = 0`, so the list is a, c, a rather than a, c, b |
| Circular.AddAsWrittenThrows | src/arraylists/ArrayDeque.cpp:75 | on a new deque, `add(0, 1)`, `add(0, 2)`, `add(0, 3)` leave four slots with `j = 3` holding 3, 2, 1; `add(2, x)` with `&` then reads slot `5 & 4 = 4` and throws `out_of_range` |
| ArrayListsQueue.ArrayQueue.constructor | include/ds/array_lists.h:52-64 | a new queue is empty with `j = 0` over one slot |
| ArrayListsQueue.ArrayQueue.Resize | src/arraylists/ArrayQueue.cpp:60-67 | `max(1, 2n)` fresh slots hold the same queue, oldest first from slot 0, and `j = 0` |
| ArrayListsQueue.ArrayQueue.Size | src/arraylists/ArrayQueue.cpp:71-73 | the result is the number of queued elements |
| ArrayListsQueue.ArrayQueue.Enqueue | src/arraylists/ArrayQueue.cpp:77-81 | the queue gains `x` at its end; the buffer grows to `max(1, 2n)` exactly when it was full, and otherwise `j` stays |
| ArrayListsQueue.ArrayQueue.Dequeue | src/arraylists/ArrayQueue.cpp:85-92 | returns the oldest element and drops it; `j` advances one slot, or the buffer is relinearised when `length >= 3n`; an empty queue is reported, not read |
| ArrayListsQueue.DequeueEmptyAsWritten | src/arraylists/ArrayQueue.cpp:86-88 | dequeuing the new, empty queue as written leaves `n = -1` |
| ArrayListsQueue.QueueCheck | spec/src/helpers/lists/queue_check.cpp:1-12 | enqueuing 0, 1, 2 and dequeuing while `size()` is non-zero gives 0, 1, 2 (FIFO), after which `size()` is 0 |
| QueuesArrayQueue.ArrayQueue.constructor | include/ds/queues.h:17-28 | a new queue is empty with `j = 0` over one slot |
| QueuesArrayQueue.ArrayQueue.Resize | src/queues/ArrayQueue.cpp:54-61 | `max(1, 2n)` fresh slots hold the same queue from slot 0, and `j = 0` |
| QueuesArrayQueue.ArrayQueue.Add | src/queues/ArrayQueue.cpp:65-70 | always returns true and appends `x`, growing exactly when full |
| QueuesArrayQueue.ArrayQueue.Remove | src/queues/ArrayQueue.cpp:74-81 | returns and drops the oldest element; `j` advances modulo the length, or the queue is relinearised when `length >= 3n`; an empty queue reports `ListEmpty` and is left unchanged (the corrected half of a finding) |
| QueuesArrayQueue.CppMod | src/queues/ArrayQueue.cpp:67 | C++ `%` truncates toward zero: on a non-negative dividend it is the usual remainder, and on a negative one it lies in `(-m, 0]` |
| QueuesArrayQueue.RemoveEmptyAsWritten | src/queues/ArrayQueue.cpp:65-81 | `remove()` as written on any empty queue returns the stale slot `j` and leaves `n = -1` in one slot; a following `add(x)` writes slot 0 but only brings `n` back to 0, so `x` is lost |
| QueuesArrayQueue.QueueCheck | spec/src/queue_spec.cpp:7-15 | `add` 1, 2, 3 all return true, and three `remove` calls give 1, 2, 3 |
| ListsArrayDeque.ArrayDeque.constructor | include/ds/lists.h:53-67 | a new deque is empty with `j = 0` over one slot |
| ListsArrayDeque.ArrayDeque.Resize | src/lists/ArrayDeque.cpp:41-48 | capacity `max(1, 2n)`, `j = 0`, and the same list |
| ListsArrayDeque.ArrayDeque.Size | src/lists/ArrayDeque.cpp:52-54 | the result is the length of the list |
| ListsArrayDeque.ArrayDeque.Get | src/lists/ArrayDeque.cpp:58-60 | reads slot `(j + i) % length`, which is element `i` for `i < n` |
| ListsArrayDeque.ArrayDeque.Set | src/lists/ArrayDeque.cpp:64-68 | returns the old value of slot `(j + i) % length`; only that slot changes, which is element `i` for `i < n` |
| ListsArrayDeque.ArrayDeque.Add | src/lists/ArrayDeque.cpp:76-90 | with `%` as intended, the list becomes `old[..i] + [x] + old[i..]`; it grows exactly when full; `j` steps back exactly when `i < n/2` |
| ListsArrayDeque.ArrayDeque.Remove | src/lists/ArrayDeque.cpp:98-114 | returns `old[i]` and deletes it; `j` advances exactly when `i < n/2`; it resizes exactly when `3n < length` |
| ListsArrayDeque.DocumentedTrace | src/lists/ArrayDeque.cpp:7-26 | the documented sequence of adds and removes, with the corrected `%` add (see the `ListsArrayDeque.ArrayDeque.Add` line under Left out), leaves a, g, e, c, d |
| ListsArrayDeque.ListCheck | spec/src/list_spec.cpp:7-23 | `listCheck` reads 3, 2, 1, then 3 returned by `set`, then 0 removed, then 2 at index 0 |
| ArrayListsDeque.ArrayDeque.Size | src/arraylists/ArrayDeque.cpp:40-43 | the deque's own `size()`, declared at include/ds/array_lists.h:74, returns `n`, the length of the list |
| ArrayListsDeque.ArrayDeque.Get | src/arraylists/ArrayDeque.cpp:47-49 | reads physical slot `(j + i) % length`, which is element `i` for `i < n` |
| ArrayListsDeque.ArrayDeque.Set | src/arraylists/ArrayDeque.cpp:53-58 | returns the previous value of that slot and changes only it |
| ArrayListsDeque.ArrayDeque.Add | src/arraylists/ArrayDeque.cpp:66-80 | with `%` as intended, `x` is inserted at logical `i`, shifting the shorter side, with the same capacity and `j` rules as the list deque |
| ArrayListsDeque.ArrayDeque.Remove | src/arraylists/ArrayDeque.cpp:88-104 | returns and deletes logical `i`; `j` advances exactly when `i < n/2`; it resizes through the base's `resize` when `3n < length` |
| ArrayListsDeque.ArrayDeque.Enqueue | src/arraylists/ArrayQueue.cpp:77-81 | the inherited `enqueue` appends at the back |
| ArrayListsDeque.ArrayDeque.Dequeue | src/arraylists/ArrayQueue.cpp:85-92 | the inherited `dequeue` takes the front element, and reports an empty deque |
| ArrayListsDeque.ArrayDeque.AddLast | src/arraylists/ArrayDeque.cpp:108-110 | `x` joins at the back |
| ArrayListsDeque.ArrayDeque.RemoveLast | src/arraylists/ArrayDeque.cpp:114-116 | returns and drops the last element |
| ArrayListsDeque.ArrayDeque.AddFirst | src/arraylists/ArrayDeque.cpp:120-122 | `x` joins at the front |
| ArrayListsDeque.ArrayDeque.RemoveFirst | src/arraylists/ArrayDeque.cpp:126-128 | returns and drops the first element |
| ArrayListsDeque.ArrayDeque.Push | src/arraylists/ArrayDeque.cpp:132-134 | `x` becomes the top of the stack, which is the front |
| ArrayListsDeque.ArrayDeque.Pop | src/arraylists/ArrayDeque.cpp:137-139 | returns and drops the front element, so push and pop are LIFO |
| ArrayListsDeque.ListCheck | spec/src/helpers/lists/list_check.cpp:1-24 | `listCheck` on the deque reads 3, 2, 1, 0, 2 and leaves it empty |
| ArrayListsDeque.QueueCheck | spec/src/helpers/lists/queue_check.cpp:1-12 | enqueue 0, 1, 2 then dequeue gives 0, 1, 2 |
| ArrayListsDeque.StackCheck | spec/src/helpers/lists/stack_check.cpp:1-12 | push 0, 1, 2 then pop gives 2, 1, 0 |
| ArrayListsDeque.DequeCheck | spec/src/helpers/lists/deque_check.cpp:1-46 | addLast 0, 1, 2 and addFirst 3, 4, 5 give 5, 4, 3, 0, 1, 2; two removeFirst give 5, 4 and four removeLast give 2, 1, 0, 3 |
| ArrayListsDeque.ChecksInOrder | spec/src/array_list_spec.cpp:12-39 | the four checks in turn on one deque give those four readings |
| ListsDualArrayDeque.EvenSplitBalanced | src/lists/DualArrayDeque.cpp:41-53 | the split `balance` builds, `n/2` in front and the rest behind, is balanced for every `n >= 2` |
| ListsDualArrayDeque.SingletonNeverBalanced | src/lists/DualArrayDeque.cpp:36 | with one element the 0/1 split fails the balance test, so `balance` rebuilds on every call |
| ListsDualArrayDeque.FrontInsert | src/lists/DualArrayDeque.cpp:89-90 | inserting at `front.size() - i` of the front stack inserts at `i` of `reverse(front) ++ back` |
| ListsDualArrayDeque.BackInsert | src/lists/DualArrayDeque.cpp:91-92 | inserting at `i - front.size()` of the back stack inserts at `i` of the list |
| ListsDualArrayDeque.FrontUpdate | src/lists/DualArrayDeque.cpp:79-80 | overwriting `front.size() - i - 1` of the front stack overwrites index `i` of the list |
| ListsDualArrayDeque.BackUpdate | src/lists/DualArrayDeque.cpp:81-82 | overwriting `i - front.size()` of the back stack overwrites index `i` of the list |
| ListsDualArrayDeque.FrontDelete | src/lists/DualArrayDeque.cpp:101-102 | removing `front.size() - i - 1` of the front stack removes index `i` of the list |
| ListsDualArrayDeque.BackDelete | src/lists/DualArrayDeque.cpp:103-104 | removing `i - front.size()` of the back stack removes index `i` of the list |
| ListsDualArrayDeque.SplitJoin | src/lists/DualArrayDeque.cpp:41-56 | splitting the list at `nf` with the front part reversed reads back as the same list |
| ListsDualArrayDeque.DualArrayDeque.constructor | include/ds/lists.h:70-83 | a new deque is empty |
| ListsDualArrayDeque.DualArrayDeque.Size | src/lists/DualArrayDeque.cpp:62-64 | `front.size() + back.size()` is the length of the list |
| ListsDualArrayDeque.DualArrayDeque.Get | src/lists/DualArrayDeque.cpp:68-74 | routing by `front.size()` reads element `i` of `reverse(front) ++ back` |
| ListsDualArrayDeque.DualArrayDeque.Set | src/lists/DualArrayDeque.cpp:78-84 | returns the old element `i` and changes only that element; an index outside the list leaves the list alone |
| ListsDualArrayDeque.DualArrayDeque.Add | src/lists/DualArrayDeque.cpp:88-95 | `x` is inserted at `i`, and afterwards neither stack holds more than three times the other unless the list has one element |
| ListsDualArrayDeque.DualArrayDeque.AddFront | src/lists/DualArrayDeque.cpp:89-90 | the front branch inserts `x` at list index `i` |
| ListsDualArrayDeque.DualArrayDeque.AddBack | src/lists/DualArrayDeque.cpp:91-92 | the back branch inserts `x` at list index `i` |
| ListsDualArrayDeque.DualArrayDeque.AddUnbalanced | src/lists/DualArrayDeque.cpp:89-93 | before `balance`, `x` is already at list index `i` |
| ListsDualArrayDeque.DualArrayDeque.Remove | src/lists/DualArrayDeque.cpp:99-108 | returns `old[i]` and deletes it, and afterwards the stacks are balanced unless one element is left |
| ListsDualArrayDeque.DualArrayDeque.RemoveFront | src/lists/DualArrayDeque.cpp:101-102 | the front branch returns and deletes list element `i` |
| ListsDualArrayDeque.DualArrayDeque.RemoveBack | src/lists/DualArrayDeque.cpp:103-104 | the back branch returns and deletes list element `i` |
| ListsDualArrayDeque.DualArrayDeque.RemoveUnbalanced | src/lists/DualArrayDeque.cpp:100-105 | before `balance`, list element `i` is returned and gone |
| ListsDualArrayDeque.DualArrayDeque.Balance | src/lists/DualArrayDeque.cpp:35-58 | the list never changes; a balanced pair is left untouched; otherwise the split becomes `n/2` in front and `n - n/2` behind, which is balanced for `n != 1` |
| ListsDualArrayDeque.DualArrayDeque.Rebuild | src/lists/DualArrayDeque.cpp:37-56 | the rebuilt stacks hold the same list split `n/2` and `n - n/2` |
| ListsDualArrayDeque.DualArrayDeque.FillFront | src/lists/DualArrayDeque.cpp:45-47 | the corrected first loop builds a stack holding the first `nf` elements reversed |
| ListsDualArrayDeque.DualArrayDeque.FillBack | src/lists/DualArrayDeque.cpp:51-53 | the second loop builds a stack holding elements `nf ..` in order |
| ListsDualArrayDeque.RawAddAsWritten | src/lists/ArrayStack.cpp:76-83 | `ArrayStack::add` as written writes `x` at any index inside the grown buffer, and throws exactly for an index at or past the buffer length |
| ListsDualArrayDeque.FrontFillAsWrittenThrows | src/lists/DualArrayDeque.cpp:45-47 | as written, the first loop throws `out_of_range` for every list of four or more elements |
| ListsDualArrayDeque.FrontFillAsWrittenSmall | src/lists/DualArrayDeque.cpp:45-47 | with two or three elements the loop as written gives the right one-element front stack |
| ListsDualArrayDeque.ListCheck | spec/src/list_spec.cpp:7-23 | `listCheck` on a DualArrayDeque reads 3, 2, 1, 0, 2 |
| LinkedSLList.SLList.constructor | include/ds/linked_lists.h:19-25 | a new list is empty |
| LinkedSLList.SLList.Size | src/linkedlists/SLList.cpp:6-8 | the counter is the length of the list |
| LinkedSLList.SLList.Push | src/linkedlists/SLList.cpp:11-19 | `x` becomes the head, and the tail too when the list was empty |
| LinkedSLList.SLList.Pop | src/linkedlists/SLList.cpp:22-36 | returns and unlinks the head; an empty list throws and is unchanged; the tail is null once the list is empty |
| LinkedSLList.SLList.Enqueue | src/linkedlists/SLList.cpp:43-53 | `x` is appended after the tail, or becomes the head of an empty list |
| LinkedSLList.SLList.Dequeue | src/linkedlists/SLList.cpp:56-58 | the same as `pop`: the oldest enqueued element leaves first |
| LinkedSLList.StackCheck | spec/src/helpers/lists/stack_check.cpp:1-12 | push 0, 1, 2 then pop gives 2, 1, 0 |
| LinkedSLList.QueueCheck | spec/src/helpers/lists/queue_check.cpp:1-12 | enqueue 0, 1, 2 then dequeue gives 0, 1, 2 |
| LinkedSLList.StackThenQueue | spec/src/linked_list_spec.cpp:12-26 | both checks run in turn on one list |
| LinkedDLList.RingInsert | src/linkedlists/DLList.cpp:30-38 | inserting into the element nodes inserts into the ring one position further on |
| LinkedDLList.RingDelete | src/linkedlists/DLList.cpp:66-76 | deleting from the element nodes deletes from the ring one position further on |
| LinkedDLList.LinkedAfterInsert | src/linkedlists/DLList.cpp:32-35 | with the new node's two links and the two facing links set, the ring is linked with the new node in the gap |
| LinkedDLList.Link | src/linkedlists/DLList.cpp:31-35 | the four pointer writes of `addBefore` keep `u.next.prev == u` and `u.prev.next == u` all round the ring, with `u` before `w`, and move no value |
| LinkedDLList.LinkedAfterDelete | src/linkedlists/DLList.cpp:70-71 | once the neighbours point at each other, the ring without the node is linked |
| LinkedDLList.Unlink | src/linkedlists/DLList.cpp:70-71 | the two pointer writes of `remove` leave a linked ring without `w` and move no value |
| LinkedDLList.Clamp | src/linkedlists/DLList.cpp:9-27 | the list position `getNode` reaches: `i` for `0 <= i <= n`, 0 below, `n` above |
| LinkedDLList.DLList.constructor | src/linkedlists/DLList.cpp:2-5 | a new list is empty, and the sentinel's `next` and `prev` are itself |
| LinkedDLList.DLList.Size | src/linkedlists/DLList.cpp:42-44 | the counter is the length of the list |
| LinkedDLList.DLList.GetNode | src/linkedlists/DLList.cpp:9-27 | walking from the nearer end reaches node `i`, or the sentinel when `i == n` (and past either end, the sentinel or the first node) |
| LinkedDLList.DLList.AddBefore | src/linkedlists/DLList.cpp:30-38 | a fresh node holding `x` is linked just before `w`, so `x` becomes element `k` |
| LinkedDLList.DLList.Get | src/linkedlists/DLList.cpp:47-49 | element `i` in range; the sentinel's value at or past `n`; the first element for negative `i` |
| LinkedDLList.DLList.Set | src/linkedlists/DLList.cpp:53-58 | returns the old value at the reached node and changes only it; out of range it is the sentinel, and the list is unchanged |
| LinkedDLList.DLList.Add | src/linkedlists/DLList.cpp:61-63 | `x` is inserted at index `i`, or at the nearer end when `i` is outside `[0, n]` |
| LinkedDLList.DLList.Detach | src/linkedlists/DLList.cpp:70-73 | the node at position `k` leaves the ring, the list and the footprint |
| LinkedDLList.DLList.Remove | src/linkedlists/DLList.cpp:66-76 | unlinks node `i` and returns its value; the other elements keep their order |
| LinkedDLList.DLList.AddFirst | src/linkedlists/DLList.cpp:80-82 | `x` joins at the front |
| LinkedDLList.DLList.RemoveFirst | src/linkedlists/DLList.cpp:85-87 | returns and drops the first element |
| LinkedDLList.DLList.AddLast | src/linkedlists/DLList.cpp:90-92 | `x` joins at the back |
| LinkedDLList.DLList.RemoveLast | src/linkedlists/DLList.cpp:95-97 | returns and drops the last element |
| LinkedDLList.DLList.Push | src/linkedlists/DLList.cpp:101-103 | `x` joins at the front, the top of the stack |
| LinkedDLList.DLList.Pop | src/linkedlists/DLList.cpp:106-108 | returns and drops the front element |
| LinkedDLList.DLList.Enqueue | src/linkedlists/DLList.cpp:112-114 | `x` joins at the front |
| LinkedDLList.DLList.Dequeue | src/linkedlists/DLList.cpp:117-119 | returns and drops the back element, the one enqueued longest ago |
| LinkedDLList.ListCheck | spec/src/helpers/lists/list_check.cpp:1-24 | `listCheck` reads 3, 2, 1, 0, 2 and leaves the list empty |
| LinkedDLList.DequeCheck | spec/src/helpers/lists/deque_check.cpp:1-46 | the deque check gives 5, 4 from the front, then 2, 1, 0, 3 from the back |
| LinkedDLList.StackCheck | spec/src/helpers/lists/stack_check.cpp:1-12 | push 0, 1, 2 then pop gives 2, 1, 0 |
| LinkedDLList.QueueCheck | spec/src/helpers/lists/queue_check.cpp:1-12 | enqueue 0, 1, 2 then dequeue gives 0, 1, 2 |
| LinkedDLList.ChecksInOrder | spec/src/linked_list_spec.cpp:12-26 | the four checks in turn on one list give those four readings |
| BinaryTrees.SubClosed | src/binarytrees/BinarySearchTree.cpp:8-10 | a node under `k` has its whole subtree under `k` |
| BinaryTrees.Separated | src/binarytrees/BinarySearchTree.cpp:8-10 | in a search tree, a node outside a subtree is below all of it or above all of it |
| BinaryTrees.Distinct | src/binarytrees/BinarySearchTree.cpp:8-10 | distinct nodes of a search tree hold distinct values |
| BinaryTrees.SizeIsCount | src/binarytrees/BinarySearchTree.cpp:8-10 | a search tree stores as many values as it has nodes |
| BinaryTrees.Find | src/binarytrees/BinarySearchTree.cpp:168-198 | `x` when stored, else the smallest stored value above `x`; `out_of_range` exactly when every value is below `x` |
| BinaryTrees.LargestNodeInSubtree | src/binarytrees/BinarySearchTree.cpp:240-251 | the node reached has no right child and holds the largest value of the subtree; null from null |
| BinaryTrees.SmallestNodeInSubtree | src/binarytrees/BinarySearchTree.cpp:227-238 | the node reached has no left child and holds the smallest value of the subtree; null from null |
| BinaryTrees.FindSmallerParent | src/binarytrees/BinarySearchTree.cpp:266-274 | from a node without a left child, the climb stops at the node holding the next smaller value |
| BinaryTrees.Locate | src/binarytrees/BinarySearchTree.cpp:80-96 | the descent finds `x` exactly when it is stored, and otherwise stops at the null link where `x` belongs |
| BinaryTrees.AttachLeaf | src/binarytrees/BinarySearchTree.cpp:102-112 | hanging the new leaf where the descent stopped keeps a search tree, with `x` added to the values |
| BinaryTrees.Lookup | src/binarytrees/BinarySearchTree.cpp:122-132 | the descent returns the node holding `x`, or null exactly when `x` is not stored |
| BinaryTrees.Splice | src/binarytrees/BinarySearchTree.cpp:200-225 | the only child (or null) takes `u`'s place below `u`'s parent or at the root, no other link changes, and a tree of the other nodes results, ordered when the old one was |
| BinaryTrees.SpliceShape | src/binarytrees/BinarySearchTree.cpp:200-225 | after a splice the other nodes still form a tree, ordered if the old one was |
| BinaryTrees.ValuesMinus | src/binarytrees/BinarySearchTree.cpp:142-144 | dropping a node drops exactly its value |
| BinaryTrees.CopyUp | src/binarytrees/BinarySearchTree.cpp:145-152 | copying the right subtree's smallest value into the node keeps the order everywhere except at that smallest node, and the values apart from it are the old ones without `x` |
| BinaryTrees.PredecessorGreater | src/binarytrees/BinarySearchTree.cpp:276-290 | stepping to the predecessor adds exactly one value to the values above |
| BinaryTreesSearchTree.BinarySearchTree.constructor | include/ds/binary_trees.h:65 | a new tree is empty |
| BinaryTreesSearchTree.BinarySearchTree.SizeAsWritten | src/binarytrees/BinarySearchTree.cpp:48-68 | the breadth-first count as written: the number of values in a non-empty tree, a null dereference on an empty one |
| BinaryTreesSearchTree.BinarySearchTree.Enqueue | src/binarytrees/BinarySearchTree.cpp:57-64 | the nodes still to count drop by one, for `current`, and gain its subtree |
| BinaryTreesSearchTree.BinarySearchTree.Size | src/binarytrees/BinarySearchTree.cpp:48-68 | the number of stored values, 0 for an empty tree |
| BinaryTreesSearchTree.BinarySearchTree.Add | src/binarytrees/BinarySearchTree.cpp:78-116 | returns true exactly when `x` was absent; the values become `old + {x}` and the order is kept |
| BinaryTreesSearchTree.BinarySearchTree.Remove | src/binarytrees/BinarySearchTree.cpp:119-155 | a stored `x` is returned and removed, keeping the order; an absent one is `out_of_range` with no change |
| BinaryTreesSearchTree.BinarySearchTree.RemoveNode | src/binarytrees/BinarySearchTree.cpp:142-144 | splicing out a node with at most one child removes exactly its value |
| BinaryTreesSearchTree.BinarySearchTree.SpliceNode | src/binarytrees/BinarySearchTree.cpp:200-225 | the splice leaves an ordered tree without `u` |
| BinaryTreesSearchTree.BinarySearchTree.Find | src/binarytrees/BinarySearchTree.cpp:168-198 | the ceiling of `x` among the stored values, or `out_of_range` when every value is smaller |
| BinaryTreesSearchTree.SecondLargestIn | src/binarytrees/BinarySearchTree.cpp:254-264 | the walk returns a stored value with exactly one stored value above it |
| BinaryTreesSearchTree.BinarySearchTree.SecondLargest | src/binarytrees/BinarySearchTree.cpp:254-264 | a stored value with exactly one stored value above it: the second largest |
| BinaryTreesSearchTree.BinarySearchTree.NthLargest | src/binarytrees/BinarySearchTree.cpp:276-290 | a stored value with exactly `n - 1` stored values above it (the largest for `n <= 1`) |
| BinaryTreesSearchTree.BinarySearchTree.NextSmaller | src/binarytrees/BinarySearchTree.cpp:281-287 | one step of `nthLargest` reaches the node of the next smaller value, which has one more value above it |
| BinaryTreesSearchTree.BuildTestTree | spec/src/binary_tree_spec.cpp:15-20 | adding 8, 3, 4, 10, 9, 12 stores exactly those six values |
| BinaryTreesSearchTree.FindScenario | spec/src/binary_tree_spec.cpp:24-29 | six values; `find` of 7, 11, 8, 4 gives 8, 12, 8, 4 |
| BinaryTreesSearchTree.SecondScenario | spec/src/binary_tree_spec.cpp:31 | the second largest is 10 |
| BinaryTreesSearchTree.RankScenario | spec/src/binary_tree_spec.cpp:33-38 | `nthLargest` of 1 to 6 gives 12, 10, 9, 8, 4, 3 |
| BinaryTreesSearchTree.RemoveScenario | spec/src/binary_tree_spec.cpp:40-41 | removing 10 leaves 5 values; then removing the root's 8 leaves 4 |
| BinaryTreesSearchTree.SingleScenario | spec/src/binary_tree_spec.cpp:43-51 | in the tree holding only 8, `find` of 7 and 8 gives 8, and 11 finds nothing larger |
| BinaryTreesSearchTree.EmptySizeScenario | src/binarytrees/BinarySearchTree.cpp:53-57 | on a new tree, `size()` as written dereferences null while the corrected count is 0 |
| TreapRotations.RotateLeft | src/binarytrees/Treap.cpp:64-85 | `u`'s right child takes `u`'s place (or the root), `u` becomes its left child, its old left subtree moves under `u`, and shape, values and search order are kept |
| TreapRotations.LeftShape | src/binarytrees/Treap.cpp:64-85 | after a left rotation the same nodes form a tree with the same values, ordered if the old one was |
| TreapRotations.RotateRight | src/binarytrees/Treap.cpp:105-126 | the mirror image: the left child is lifted and its right subtree moves under `u`, keeping shape, values and order |
| TreapRotations.RightShape | src/binarytrees/Treap.cpp:105-126 | after a right rotation the same nodes form a tree with the same values, ordered if the old one was |
| BinaryTreesTreap.HeapRaise | src/binarytrees/Treap.cpp:177-183 | rotating `u` above a parent of larger priority keeps the heap in order everywhere around `u` |
| BinaryTreesTreap.HeapSink | src/binarytrees/Treap.cpp:213-225 | lifting the child of smallest priority above `c` keeps the heap in order around `c` |
| BinaryTreesTreap.HeapSettled | src/binarytrees/Treap.cpp:176-186 | once the moving node's parent has no larger priority, or it is the root, the whole tree is a heap |
| BinaryTreesTreap.HeapSplice | src/binarytrees/Treap.cpp:228-230 | splicing out the moved node leaves a heap |
| BinaryTreesTreap.HeapAttach | src/binarytrees/Treap.cpp:160-174 | a new leaf, whatever its priority, leaves the heap in order around it |
| BinaryTreesTreap.HangLeaf | src/binarytrees/Treap.cpp:160-174 | the new leaf holding `x` with priority `p` is hung where the descent stopped, adding `x` to the values |
| BinaryTreesTreap.RaiseAt | src/binarytrees/Treap.cpp:177-183 | one rotation moves `u` above its parent and keeps values and search order |
| BinaryTreesTreap.SinkAt | src/binarytrees/Treap.cpp:213-225 | one rotation moves `c` below its child of smaller priority, keeping values and search order |
| BinaryTreesTreap.BubbleUp | src/binarytrees/Treap.cpp:176-186 | the bubbling loop ends in a search tree that is a heap, with the same values |
| BinaryTreesTreap.TrickleDown | src/binarytrees/Treap.cpp:212-226 | the rotate-down loop ends with `c` a leaf, keeping its value, all values and the order |
| BinaryTreesTreap.SpliceMoved | src/binarytrees/Treap.cpp:228-231 | splicing out `c` leaves a treap without `c`'s value |
| BinaryTreesTreap.Insert | src/binarytrees/Treap.cpp:139-190 | reports whether `x` was absent; the result is a search tree and a heap holding `old + {x}`, with one more node exactly when added |
| BinaryTreesTreap.Delete | src/binarytrees/Treap.cpp:192-235 | reports whether `x` was present; the result is a search tree and a heap holding `old - {x}`, with one node fewer exactly when found |
| BinaryTreesTreap.Treap.constructor | include/ds/binary_trees.h:80-87 | a new treap is empty with `n = 0` |
| BinaryTreesTreap.Treap.Size | src/binarytrees/Treap.cpp:129-132 | the counter `n` is the number of stored values |
| BinaryTreesTreap.Treap.Find | src/binarytrees/Treap.cpp:266-297 | the same ceiling search as in the search tree |
| BinaryTreesTreap.Treap.Add | src/binarytrees/Treap.cpp:139-190 | returns true exactly when `x` was absent, and the values become `old + {x}` while both invariants hold |
| BinaryTreesTreap.Treap.Remove | src/binarytrees/Treap.cpp:192-235 | a stored `x` is returned and removed with both invariants kept; an absent one is `out_of_range` with no change |
| BinaryTreesTreap.BuildTestTreap | spec/src/binary_tree_spec.cpp:58-65 | adding the six test values, with any priorities, stores exactly those values |
| BinaryTreesTreap.TreapScenario | spec/src/binary_tree_spec.cpp:67-75 | for any priorities: six values, 12 removed, five left, and 8 is the ceiling of 5 |
| BinaryTreesRecursive.Size | src/binarytrees/RecursiveBinaryTree.cpp:48-54 | the recursive size is the number of nodes under `u` |
| BinaryTreesRecursive.SizeOfRoot | src/binarytrees/RecursiveBinaryTree.cpp:48-54 | at the root, the recursive size is the number of stored values, which the breadth-first `size` also counts |
| BinaryTreesRecursive.Height | src/binarytrees/RecursiveBinaryTree.cpp:33-39 | a subtree of height `h` has at least `h` and fewer than `2^h` nodes |
| BinaryTreesRecursive.HeightIsLongestPath | src/binarytrees/RecursiveBinaryTree.cpp:27-31 | the height is the number of nodes on a longest way down to a leaf: no way down is longer, and one to a leaf is that long |
| BinaryTreesRecursive.AncestorsStep | src/binarytrees/RecursiveBinaryTree.cpp:19-22 | above a non-root node lie its parent and what lies above the parent |
| BinaryTreesRecursive.Depth | src/binarytrees/RecursiveBinaryTree.cpp:16-24 | the number of steps up to the root is the number of nodes above `u` |

## Left out

- Input and output: `draw()` of the trees, `Array::draw`, and the printing in the driver programs under `spec/src`. The drivers appear only as scenario methods.
- `rand()` in `Treap::add` becomes the parameter `p`. No property depends on how priorities are drawn.
- Memory management: `new`, `delete`, destructors, and the buffer transfer in `Array::operator=`. Dafny's heap replaces ownership; a deleted tree node stays in the arena, unreachable.
- The array containers use Dafny `array`s directly. `Arrays.Array` models the checked `operator[]`; the containers' own indices are proved in range, so its check never fires for them.
- `j` and `n`, which `include/ds/lists.h:56-57` and `include/ds/queues.h:20-21` leave uninitialised, start at 0, as in `include/ds/array_lists.h:55-56`.
- 32-bit overflow of `2n` and `3n`, and `%` on negative operands: integers are unbounded and indices are non-negative.
- Tree elements are `int`; the source is generic over a type with `<` and `==`.
- The breadth-first queue of `BinarySearchTree::size` is a Dafny sequence, not an `ArrayQueue`.
- The text of `src/arraylists/ArrayStack.cpp`, `src/arraylists/FastArrayStack.cpp` and `src/arraylists/DualArrayDeque.cpp` is not part of this model.
- BinaryTreesTreap.Treap.Add and BinaryTreesTreap.Treap.Remove hand the arena to the value-level `Insert` and `Delete`, which return a new arena; the in-place update is captured only through the class's fields being reassigned.
- BinaryTreesTreap.Heap: allows a node's priority to equal its parent's. The comment at `src/binarytrees/Treap.cpp:4-8` asks for a strictly smaller parent, but `add` stops on ties, so only the non-strict order is kept.
- ListsArrayStack.ArrayStack.Get: reads past the list but inside the buffer are modelled as the source does them, returning a stale slot; the same holds for `ListsFastArrayStack.FastArrayStack.Get`.
- ListsArrayStack.ArrayStack.Add: requires `0 <= i <= n`. The source does not check this; `ListsDualArrayDeque.RawAddAsWritten` models what happens otherwise.
- ListsFastArrayStack.FastArrayStack.Add: requires `0 <= i <= n`, which the source does not check; outside it `copy_backward` is handed an invalid range.
- ListsArrayDeque.ArrayDeque.Add: requires `i <= n`, and `i` is a `nat`, so a negative `i` is excluded too. The source checks neither bound: with `i > n` it skips the shift, writes slot `(j + i) % length` and still counts one more element, so the list then holds a stale slot.
- ArrayListsDeque.ArrayDeque.Add: requires `i <= n` with `i` a `nat`, for the same reason as `ListsArrayDeque.ArrayDeque.Add`.
- ListsDualArrayDeque.DualArrayDeque.Add: requires `0 <= i <= n`; the source forwards any index to the unchecked `ArrayStack::add`.
- ListsArrayStack.ArrayStack.Remove: requires `0 <= i < n`, which the source assumes. The same holds for the `Remove` of both array deques, the fast stack and the DualArrayDeque.
- ListsArrayDeque.ArrayDeque.Add: uses `%` in the forward shift where the source has `&`. `Circular.AddAsWritten` models the `&`; see Findings. The same holds for `ArrayListsDeque.ArrayDeque.Add`.
- QueuesArrayQueue.ArrayQueue.Remove: on an empty queue reports `ListEmpty` and changes nothing, where the source reads a stale slot, sets `n = -1` and shrinks to one slot; `RemoveEmptyAsWritten` models the code as written; see Findings.
- ArrayListsDeque.ArrayDeque.RemoveFirst: requires a non-empty deque. So do `RemoveLast` and `Pop`: on an empty deque the source returns a stale slot and leaves `n = -1`.
- ListsDualArrayDeque.DualArrayDeque.Get: states only in-range results. An out-of-range index reads a stale stack slot or throws, depending on the stacks' capacities.
- ListsDualArrayDeque.DualArrayDeque.Balance: uses the corrected front fill `af2.add(i, get(nf - i - 1))`. The line as written is modelled by `FrontFillAsWritten`; see Findings.
- LinkedDLList.DLList.Remove: requires a non-empty list and `i < n`, because otherwise `getNode` returns the sentinel and the source unlinks and deletes it. The same holds for `RemoveFirst`, `RemoveLast`, `Pop` and `Dequeue`.
- LinkedDLList.DLList.constructor: the sentinel's value `T(0)` is the parameter `zero`.
- BinaryTreesSearchTree.BinarySearchTree.SecondLargest: requires two stored values; with fewer the source dereferences null.
- BinaryTreesSearchTree.BinarySearchTree.NthLargest: requires a non-empty tree and `n <= size`; beyond that the source walks off the tree.
- BinaryTrees.FindSmallerParent: requires a node without a left child and some smaller stored value, the only way `nthLargest` calls it; otherwise the climb passes the root and dereferences null.
- BinaryTreesRecursive.Depth: requires a node of the tree; for a node outside the tree the source's climb passes that node's own root and dereferences null.
- BinaryTreesRecursive.Height and BinaryTreesRecursive.Size are ghost-indexed functions over the arena, not methods on node objects.

## Findings

| source | as written | input that shows it | evidently intended | confidence | as-written member | corrected member |
|---|---|---|---|---|---|---|
| src/lists/ArrayDeque.cpp:85 | the forward shift of `add` reads slot `(j + k - 1) & a.length()` | a new deque with `add(0, a)`, `add(1, b)`, `add(1, c)`: the third call grows to four slots and copies slot `(0 + 2 - 1) & 4 = 0` into slot 2, leaving a, c, a, so `b` is lost | `(j + k - 1) % a.length()` | not executed | Circular.AddAsWrittenLosesElement | ListsArrayDeque.ArrayDeque.Add |
| src/arraylists/ArrayDeque.cpp:75 | the same `&` in the derived deque's `add` | a new deque with `add(0, 1)`, `add(0, 2)`, `add(0, 3)`, then `add(2, x)`: with four slots, `j = 3` and `n = 3` it reads slot `(3 + 3 - 1) & 4 = 4`, which `operator[]` rejects with `out_of_range`; src/lists/ArrayDeque.cpp:85 is the same loop | `% this->a.length()` | not executed | Circular.AddAsWrittenThrows | ArrayListsDeque.ArrayDeque.Add |
| src/lists/DualArrayDeque.cpp:46 | `af2.add(nf - i - 1, get(i))` on a stack that holds `i` elements | any rebuild with `nf >= 2`, which is any list of four or more elements: the first call adds at index `nf - 1 >= 1` of an empty one-slot stack and throws | `af2.add(i, get(nf - i - 1))`, building the reversed front | not executed | ListsDualArrayDeque.FrontFillAsWrittenThrows | ListsDualArrayDeque.DualArrayDeque.FillFront |
| src/binarytrees/BinarySearchTree.cpp:53-57 | `size()` enqueues the root unconditionally and dereferences the dequeued node | `size()` on a new, empty tree dereferences null | return 0 for an empty tree | not executed | BinaryTreesSearchTree.BinarySearchTree.SizeAsWritten | BinaryTreesSearchTree.BinarySearchTree.Size |
| src/arraylists/ArrayQueue.cpp:86 | `dequeue()` never checks for an empty queue | `dequeue()` on a new queue leaves `n = -1`, after which `size()` is -1 | report an empty queue | not executed | ArrayListsQueue.DequeueEmptyAsWritten | ArrayListsQueue.ArrayQueue.Dequeue |
| src/queues/ArrayQueue.cpp:76 | `remove()` never checks for an empty queue | `remove()` on a new queue returns a stale slot and leaves `n = -1` in one slot; a following `add(x)` leaves `n = 0`, so `x` is lost | report an empty queue | not executed | QueuesArrayQueue.RemoveEmptyAsWritten | QueuesArrayQueue.ArrayQueue.Remove |
