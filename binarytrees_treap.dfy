/**
 * The treap of src/binarytrees/Treap.cpp: a binary search tree over the node
 * arena of binary_trees.dfy whose nodes also carry priorities kept in heap
 * order, restored by rotations after every add and remove.
 *
 * `TreapNode<T>::p` lives in the field `prio`, indexed like the arena. The
 * priority `add` draws from `rand()` is a parameter here.
 */
module BinaryTreesTreap {
  import opened Wrappers
  import opened BinaryTrees
  import opened TreapRotations
  import BinaryTreesSearchTree

  /** The edge from node `k` up to its parent (if any) is in heap order. */
  ghost predicate EdgeOk(t: seq<BTNode>, prio: seq<int>, k: int)
    requires 0 <= k < |t| == |prio|
  {
    var q := t[k].parent;
    0 <= q < |t| ==> prio[q] <= prio[k]
  }

  /**
   * The heap property of Treap.cpp:4-8: no node has a smaller priority than
   * its parent (equal priorities are let through, as `add` stops on them).
   */
  ghost predicate Heap(t: seq<BTNode>, prio: seq<int>, N: set<int>)
  {
    |prio| == |t| && forall k {:trigger EdgeOk(t, prio, k)} :: k in N && 0 <= k < |t| ==> EdgeOk(t, prio, k)
  }

  /**
   * Heap order on every edge not touching node `c`, and `c`'s parent no
   * larger than `c`'s children: the state while `c` is rotated up or down.
   */
  ghost predicate HeapAround(t: seq<BTNode>, prio: seq<int>, N: set<int>, c: int)
  {
    |prio| == |t| && 0 <= c < |t| &&
    (forall k :: k in N && 0 <= k < |t| && k != c && t[k].parent != c ==> EdgeOk(t, prio, k)) &&
    (forall k :: k in N && 0 <= k < |t| && t[k].parent == c && 0 <= t[c].parent < |t| ==>
      prio[t[c].parent] <= prio[k])
  }

  /** The edges from `c` down to its children are in heap order. */
  ghost predicate Below(t: seq<BTNode>, prio: seq<int>, N: set<int>, c: int)
    requires 0 <= c < |t| == |prio|
  {
    forall k :: k in N && 0 <= k < |t| && t[k].parent == c ==> prio[c] <= prio[k]
  }

  /**
   * What a rotation at `u` does to parent links: `u`'s child `w` takes `u`'s
   * parent, `u` hangs below `w`, and `w`'s inner child `b` (maybe null)
   * moves below `u`.
   */
  ghost predicate Lifted(t: seq<BTNode>, t2: seq<BTNode>, u: int, w: int, b: int)
  {
    |t2| == |t| && 0 <= u < |t| && 0 <= w < |t| && u != w && b != u && b != w &&
    t[w].parent == u && t[u].parent != w &&
    t2[w].parent == t[u].parent && t2[u].parent == w &&
    (b != -1 ==> 0 <= b < |t| && t[b].parent == w && t2[b].parent == u) &&
    (forall k :: 0 <= k < |t| && k != u && k != w && k != b ==> t2[k].parent == t[k].parent)
  }

  /** A left rotation lifts the right child and moves its left subtree across. */
  lemma LiftedByLeft(t: seq<BTNode>, root: int, N: set<int>, S: seq<set<int>>, u: int, t2: seq<BTNode>, root2: int)
    requires Shape(t, root, N, S) && u in N && t[u].right != -1 && RotatedLeft(t, root, u, t2, root2)
    ensures Lifted(t, t2, u, t[u].right, t[t[u].right].left)
  {
    LeftApart(t, root, N, S, u);
  }

  /** A right rotation lifts the left child and moves its right subtree across. */
  lemma LiftedByRight(t: seq<BTNode>, root: int, N: set<int>, S: seq<set<int>>, u: int, t2: seq<BTNode>, root2: int)
    requires Shape(t, root, N, S) && u in N && t[u].left != -1 && RotatedRight(t, root, u, t2, root2)
    ensures Lifted(t, t2, u, t[u].left, t[t[u].left].right)
  {
    RightApart(t, root, N, S, u);
  }

  /** Every node of a heap can be the one being moved. */
  lemma HeapAroundAny(t: seq<BTNode>, prio: seq<int>, N: set<int>, c: int)
    requires Heap(t, prio, N) && c in N && 0 <= c < |t|
    ensures HeapAround(t, prio, N, c)
  {
    assert EdgeOk(t, prio, c);
    forall k | k in N && 0 <= k < |t| && t[k].parent == c
      ensures EdgeOk(t, prio, k)
    {
    }
  }

  /** Once the moving node `u` sits below a parent of no larger priority, or at the root, the heap is whole. */
  lemma HeapSettled(t: seq<BTNode>, prio: seq<int>, N: set<int>, u: int)
    requires HeapAround(t, prio, N, u) && Below(t, prio, N, u) && EdgeOk(t, prio, u)
    ensures Heap(t, prio, N)
  {
    forall k | k in N && 0 <= k < |t|
      ensures EdgeOk(t, prio, k)
    {
      if k != u && t[k].parent == u {
        assert prio[u] <= prio[k];
      }
    }
  }

  /**
   * One bubbling step of `add` (Treap.cpp:176-186): `u`, whose priority is
   * below its parent `p`'s, is rotated above `p`; the heap stays in order
   * around `u`.
   */
  lemma HeapRaise(t: seq<BTNode>, t2: seq<BTNode>, prio: seq<int>, N: set<int>, p: int, u: int, b: int)
    requires Lifted(t, t2, p, u, b) && p in N
    requires HeapAround(t, prio, N, u) && Below(t, prio, N, u) && prio[u] < prio[p]
    ensures HeapAround(t2, prio, N, u) && Below(t2, prio, N, u)
  {
    assert EdgeOk(t, prio, p);
    forall k | k in N && 0 <= k < |t2| && k != u && t2[k].parent != u
      ensures EdgeOk(t2, prio, k)
    {
      if k != b {
        assert EdgeOk(t, prio, k);
      }
    }
  }

  /**
   * One step of the rotate-down loop of `remove` (Treap.cpp:212-226): `c`'s
   * child `w` of smallest priority is rotated above `c`; the heap stays in
   * order around `c`.
   */
  lemma HeapSink(t: seq<BTNode>, t2: seq<BTNode>, prio: seq<int>, N: set<int>, c: int, w: int, b: int)
    requires Lifted(t, t2, c, w, b) && w in N
    requires HeapAround(t, prio, N, c)
    requires forall k :: k in N && 0 <= k < |t| && t[k].parent == c ==> prio[w] <= prio[k]
    ensures HeapAround(t2, prio, N, c)
  {
    if b != -1 && b in N {
      assert EdgeOk(t, prio, b);
    }
    forall k | k in N && 0 <= k < |t2| && k != c && t2[k].parent != c
      ensures EdgeOk(t2, prio, k)
    {
      if k != w {
        assert EdgeOk(t, prio, k);
      }
    }
  }

  /** Splicing out the moved node, once it has at most one child, leaves a whole heap. */
  lemma HeapSplice(t: seq<BTNode>, root: int, N: set<int>, S: seq<set<int>>, prio: seq<int>, c: int,
                   t2: seq<BTNode>, root2: int)
    requires Shape(t, root, N, S) && c in N && (t[c].left == -1 || t[c].right == -1)
    requires SplicedOut(t, root, c, t2, root2) && HeapAround(t, prio, N, c)
    ensures Heap(t2, prio, N - {c})
  {
    var s := Spliced(t[c]);
    SpliceApart(t, root, N, S, c);
    assert Linked(t, root, N, S, c);
    forall k | k in N - {c} && 0 <= k < |t2|
      ensures EdgeOk(t2, prio, k)
    {
      assert Linked(t, root, N, S, k);
      if k != s {
        assert EdgeOk(t, prio, k);
      }
    }
  }

  /** A new leaf with any priority leaves the heap in order around it. */
  lemma HeapAttach(t: seq<BTNode>, root: int, N: set<int>, S: seq<set<int>>, prio: seq<int>, prev: int, v: int,
                   t2: seq<BTNode>, p: int)
    requires Shape(t, root, N, S) && Heap(t, prio, N) && Attached(t, t2, prev, v)
    ensures HeapAround(t2, prio + [p], N + {|t|}, |t|) && Below(t2, prio + [p], N + {|t|}, |t|)
  {
    var prio2 := prio + [p];
    forall k | k in N + {|t|} && 0 <= k < |t2| && k != |t|
      ensures t2[k].parent == t[k].parent && t2[k].parent != |t| && EdgeOk(t2, prio2, k)
    {
      assert Linked(t, root, N, S, k);
      assert EdgeOk(t, prio, k);
    }
  }

  /** A search tree whose heap order holds around node `c`, the node being rotated into place. */
  ghost predicate MovingTree(t: seq<BTNode>, root: int, N: set<int>, S: seq<set<int>>, prio: seq<int>, c: int)
  {
    SearchTree(t, root, N, S) && c in N && 0 <= c < |t| && Linked(t, root, N, S, c) && HeapAround(t, prio, N, c)
  }

  /**
   * The leaf-hanging half of `add` (Treap.cpp:160-174): a new node holding
   * `x` with priority `p` below `prev`, in heap order around it.
   */
  method HangLeaf(t: seq<BTNode>, root: int, ghost N: set<int>, ghost S: seq<set<int>>, prio: seq<int>,
                  x: int, p: int, prev: int) returns (t2: seq<BTNode>, root2: int, prio2: seq<int>)
    requires SearchTree(t, root, N, S) && Heap(t, prio, N) && AttachPoint(t, root, N, S, x, prev)
    ensures MovingTree(t2, root2, N + {|t|}, Grow(S, prev), prio2, |t|)
    ensures Below(t2, prio2, N + {|t|}, |t|) && |t| !in N
    ensures Values(t2, N + {|t|}) == Values(t, N) + {x}
  {
    var u := |t|;
    t2, root2 := t + [BTNode(x, prev, -1, -1)], root;
    if prev == -1 {
      root2 := u;
    } else if x < t2[prev].x {
      t2 := t2[prev := t2[prev].(left := u)];
    } else if x > t2[prev].x {
      t2 := t2[prev := t2[prev].(right := u)];
    }
    AttachLeaf(t, root, N, S, x, prev, t2);
    HeapAttach(t, root, N, S, prio, prev, x, t2, p);
    prio2 := prio + [p];
    assert Linked(t2, root2, N + {u}, Grow(S, prev), u);
  }

  /**
   * One pass of the bubbling loop of `add` (Treap.cpp:177-183): rotate at
   * `u`'s parent, whose priority is larger, so that `u` moves above it.
   */
  method RaiseAt(t: seq<BTNode>, root: int, ghost N: set<int>, ghost S: seq<set<int>>, prio: seq<int>, u: int)
    returns (t2: seq<BTNode>, root2: int, ghost S2: seq<set<int>>)
    requires MovingTree(t, root, N, S, prio, u) && Below(t, prio, N, u)
    requires t[u].parent != -1 && prio[t[u].parent] > prio[u]
    ensures MovingTree(t2, root2, N, S2, prio, u) && Below(t2, prio, N, u)
    ensures Values(t2, N) == Values(t, N) && N - S2[u] < N - S[u]
  {
    var q := t[u].parent;
    assert Linked(t, root, N, S, q);
    if t[q].right == u {
      t2, root2 := RotateLeft(t, root, N, S, q);
      LiftedByLeft(t, root, N, S, q, t2, root2);
      HeapRaise(t, t2, prio, N, q, u, t[u].left);
      LeftSetsMove(t, root, N, S, q);
      S2 := LeftSets(t, S, q);
    } else {
      t2, root2 := RotateRight(t, root, N, S, q);
      LiftedByRight(t, root, N, S, q, t2, root2);
      HeapRaise(t, t2, prio, N, q, u, t[u].right);
      RightSetsMove(t, root, N, S, q);
      S2 := RightSets(t, S, q);
    }
    assert Linked(t2, root2, N, S2, u);
  }

  /**
   * One pass of the rotate-down loop of `remove` (Treap.cpp:213-225) at `c`:
   * `rotateLeft` lifts its right child, otherwise a right rotation lifts its
   * left child; the child lifted has no larger priority than the other.
   */
  method SinkAt(t: seq<BTNode>, root: int, ghost N: set<int>, ghost S: seq<set<int>>, prio: seq<int>, c: int, rotateLeft: bool)
    returns (t2: seq<BTNode>, root2: int, ghost S2: seq<set<int>>)
    requires MovingTree(t, root, N, S, prio, c)
    requires rotateLeft ==> t[c].right != -1 && (t[c].left != -1 ==> prio[t[c].right] <= prio[t[c].left])
    requires !rotateLeft ==> t[c].left != -1 && (t[c].right != -1 ==> prio[t[c].left] <= prio[t[c].right])
    ensures MovingTree(t2, root2, N, S2, prio, c) && t2[c].x == t[c].x && root2 != c
    ensures Values(t2, N) == Values(t, N) && S2[c] < S[c]
  {
    var w := if rotateLeft then t[c].right else t[c].left;
    assert Linked(t, root, N, S, w);
    forall k | k in N && 0 <= k < |t| && t[k].parent == c
      ensures prio[w] <= prio[k]
    {
      assert Linked(t, root, N, S, k);
    }
    if rotateLeft {
      t2, root2 := RotateLeft(t, root, N, S, c);
      LiftedByLeft(t, root, N, S, c, t2, root2);
      HeapSink(t, t2, prio, N, c, w, t[w].left);
      LeftSetsMove(t, root, N, S, c);
      S2 := LeftSets(t, S, c);
    } else {
      t2, root2 := RotateRight(t, root, N, S, c);
      LiftedByRight(t, root, N, S, c, t2, root2);
      HeapSink(t, t2, prio, N, c, w, t[w].right);
      RightSetsMove(t, root, N, S, c);
      S2 := RightSets(t, S, c);
    }
    assert Linked(t2, root2, N, S2, c);
  }

  /**
   * The bubbling loop of `add` (Treap.cpp:177-186): while `u`'s parent has a
   * larger priority, rotate `u` above it; then `u` is the root if it has no
   * parent. The result is a treap again.
   */
  method BubbleUp(t: seq<BTNode>, root: int, ghost N: set<int>, ghost S: seq<set<int>>, prio: seq<int>, u: int)
    returns (t2: seq<BTNode>, root2: int, ghost S2: seq<set<int>>)
    requires MovingTree(t, root, N, S, prio, u) && Below(t, prio, N, u)
    ensures SearchTree(t2, root2, N, S2) && Heap(t2, prio, N) && Values(t2, N) == Values(t, N)
  {
    t2, root2, S2 := t, root, S;
    while t2[u].parent != -1 && prio[t2[u].parent] > prio[u]
      invariant MovingTree(t2, root2, N, S2, prio, u) && Below(t2, prio, N, u) && Values(t2, N) == Values(t, N)
      decreases N - S2[u]
    {
      t2, root2, S2 := RaiseAt(t2, root2, N, S2, prio, u);
    }
    if t2[u].parent == -1 {
      root2 := u;
    }
    HeapSettled(t2, prio, N, u);
  }

  /**
   * The rotate-down loop of `remove` (Treap.cpp:213-226): while `c` has a
   * child, rotate the child of smaller priority (the only one, the right one
   * on a tie) above it. The loop runs until `c` is a leaf.
   */
  method TrickleDown(t: seq<BTNode>, root: int, ghost N: set<int>, ghost S: seq<set<int>>, prio: seq<int>, c: int)
    returns (t2: seq<BTNode>, root2: int, ghost S2: seq<set<int>>)
    requires MovingTree(t, root, N, S, prio, c)
    ensures MovingTree(t2, root2, N, S2, prio, c) && t2[c].left == -1 && t2[c].right == -1
    ensures t2[c].x == t[c].x && Values(t2, N) == Values(t, N)
  {
    t2, root2, S2 := t, root, S;
    while t2[c].left != -1 || t2[c].right != -1
      invariant MovingTree(t2, root2, N, S2, prio, c) && t2[c].x == t[c].x && Values(t2, N) == Values(t, N)
      decreases S2[c]
    {
      if t2[c].left == -1 {
        t2, root2, S2 := SinkAt(t2, root2, N, S2, prio, c, true);
      } else if t2[c].right == -1 {
        t2, root2, S2 := SinkAt(t2, root2, N, S2, prio, c, false);
      } else if prio[t2[c].left] < prio[t2[c].right] {
        t2, root2, S2 := SinkAt(t2, root2, N, S2, prio, c, false);
      } else {
        t2, root2, S2 := SinkAt(t2, root2, N, S2, prio, c, true);
      }
      // The source resets the root here when it is `c`; the rotation has
      // already made the lifted child the root, so that never happens.
    }
  }

  /**
   * The end of `remove` (Treap.cpp:228-231): splice out `c`, which has at
   * most one child; a treap remains, without `c`'s value.
   */
  method SpliceMoved(t: seq<BTNode>, root: int, ghost N: set<int>, ghost S: seq<set<int>>, prio: seq<int>, c: int)
    returns (t2: seq<BTNode>, root2: int)
    requires MovingTree(t, root, N, S, prio, c) && (t[c].left == -1 || t[c].right == -1)
    ensures SearchTree(t2, root2, N - {c}, Shrink(S, c)) && Heap(t2, prio, N - {c})
    ensures Values(t2, N - {c}) == Values(t, N) - {t[c].x}
  {
    ValuesMinus(t, root, N, S, c);
    OrderedLeaving(t, root, N, S, c);
    t2, root2 := Splice(t, root, N, S, c);
    HeapSplice(t, root, N, S, prio, c, t2, root2);
    SameValues(t, t2, N - {c});
  }

  /**
   * `add(x)` (Treap.cpp:139-190) on the arena, with priority `p` for the new
   * node: nothing changes when `x` is stored; otherwise a new leaf holding
   * `x` is hung as in the search tree and bubbled up, and a treap with one
   * more node results.
   */
  method Insert(t: seq<BTNode>, root: int, ghost N: set<int>, ghost S: seq<set<int>>, prio: seq<int>, x: int, p: int)
    returns (added: bool, t2: seq<BTNode>, root2: int, prio2: seq<int>, ghost N2: set<int>, ghost S2: seq<set<int>>)
    requires SearchTree(t, root, N, S) && Heap(t, prio, N)
    ensures SearchTree(t2, root2, N2, S2) && Heap(t2, prio2, N2)
    ensures added <==> x !in Values(t, N)
    ensures Values(t2, N2) == Values(t, N) + {x}
    ensures |N2| == if added then |N| + 1 else |N|
  {
    var found, prev := Locate(t, root, N, S, x);
    if found {
      return false, t, root, prio, N, S;
    }
    var u := |t|;
    t2, root2, prio2 := HangLeaf(t, root, N, S, prio, x, p, prev);
    N2, S2 := N + {u}, Grow(S, prev);
    t2, root2, S2 := BubbleUp(t2, root2, N2, S2, prio2, u);
    added := true;
  }

  /** Any node of a treap may start moving down. */
  lemma StartMoving(t: seq<BTNode>, root: int, N: set<int>, S: seq<set<int>>, prio: seq<int>, c: int)
    requires SearchTree(t, root, N, S) && Heap(t, prio, N) && c in N
    ensures MovingTree(t, root, N, S, prio, c)
  {
    HeapAroundAny(t, prio, N, c);
    assert Linked(t, root, N, S, c);
  }

  /**
   * `remove(x)` (Treap.cpp:192-235) on the arena: nothing changes when `x`
   * is not stored; otherwise its node is rotated down until it is a leaf
   * and spliced out, and a treap with one node fewer results.
   */
  method Delete(t: seq<BTNode>, root: int, ghost N: set<int>, ghost S: seq<set<int>>, prio: seq<int>, x: int)
    returns (found: bool, t2: seq<BTNode>, root2: int, ghost N2: set<int>, ghost S2: seq<set<int>>)
    requires SearchTree(t, root, N, S) && Heap(t, prio, N)
    ensures SearchTree(t2, root2, N2, S2) && Heap(t2, prio, N2)
    ensures found <==> x in Values(t, N)
    ensures Values(t2, N2) == Values(t, N) - {x}
    ensures |N2| == if found then |N| - 1 else |N|
  {
    var c := Lookup(t, root, N, S, x);
    if c == -1 {
      return false, t, root, N, S;
    }
    StartMoving(t, root, N, S, prio, c);
    t2, root2, S2 := TrickleDown(t, root, N, S, prio, c);
    t2, root2 := SpliceMoved(t2, root2, N, S2, prio, c);
    N2, S2 := N - {c}, Shrink(S2, c);
    found := true;
  }

  class Treap {
    var nodes: seq<BTNode>
    var prio: seq<int>
    var root: int
    var n: int
    ghost var N: set<int>
    ghost var S: seq<set<int>>
    ghost var Contents: set<int>

    /** A search tree in heap order on the priorities, `n` counting its nodes. */
    ghost predicate Valid()
      reads this
    {
      SearchTree(nodes, root, N, S) && Heap(nodes, prio, N) && Contents == Values(nodes, N) && n == |N|
    }

    /** `Treap()` (binary_trees.h:80, 87): an empty treap with `n = 0`. */
    constructor ()
      ensures Valid() && Contents == {}
    {
      nodes := [];
      prio := [];
      root := -1;
      n := 0;
      N := {};
      S := [];
      Contents := {};
    }

    /** `size()` (Treap.cpp:129-132): the counter, which is the number of stored values. */
    method Size() returns (r: int)
      requires Valid()
      ensures r == |Contents|
    {
      SizeIsCount(nodes, root, N, S);
      r := n;
    }

    /** `find(x)` (Treap.cpp:266-297): `x`, else the next larger stored value, else `out_of_range`. */
    method Find(x: int) returns (r: Result<int>)
      requires Valid()
      ensures r.Ok? ==> r.value in Contents && x <= r.value && forall w :: w in Contents && x <= w ==> r.value <= w
      ensures r.Err? ==> r.error == NoLargerValue && forall w :: w in Contents ==> w < x
    {
      r := BinaryTrees.Find(nodes, root, N, S, x);
    }

    /**
     * `add(x)` (Treap.cpp:139-190) with priority `p` for the new node: false
     * when `x` is stored; otherwise `x` is added and `n` grows.
     */
    method Add(x: int, p: int) returns (added: bool)
      requires Valid()
      modifies this
      ensures Valid()
      ensures added <==> x !in old(Contents)
      ensures Contents == old(Contents) + {x}
    {
      added, nodes, root, prio, N, S := Insert(nodes, root, N, S, prio, x, p);
      if added {
        n := n + 1;
      }
      Contents := Contents + {x};
    }

    /**
     * `remove(x)` (Treap.cpp:192-235): `out_of_range` when `x` is not stored;
     * otherwise `x` is removed and `n` shrinks.
     */
    method Remove(x: int) returns (r: Result<int>)
      requires Valid()
      modifies this
      ensures Valid()
      ensures x in old(Contents) ==> r == Ok(x) && Contents == old(Contents) - {x}
      ensures x !in old(Contents) ==> r == Err(NotFound) && Contents == old(Contents)
    {
      var found;
      found, nodes, root, N, S := Delete(nodes, root, N, S, prio, x);
      if !found {
        return Err(NotFound);
      }
      n := n - 1;
      Contents := Contents - {x};
      r := Ok(x);
    }
  }

  // ---------------------------------------------------------------------------
  // The scenario of spec/src/binary_tree_spec.cpp:55-75

  /** Adding 8, 3, 4, 10, 9, 12 to an empty treap (binary_tree_spec.cpp:58-65), with priorities `p`. */
  method BuildTestTreap(p: seq<int>) returns (treap: Treap)
    requires |p| == 6
    ensures fresh(treap) && treap.Valid() && treap.Contents == BinaryTreesSearchTree.TestValues()
  {
    treap := new Treap();
    var a1 := treap.Add(8, p[0]);
    var a2 := treap.Add(3, p[1]);
    var a3 := treap.Add(4, p[2]);
    var a4 := treap.Add(10, p[3]);
    var a5 := treap.Add(9, p[4]);
    var a6 := treap.Add(12, p[5]);
  }

  /**
   * binary_tree_spec.cpp:67-75, whatever the priorities: six values, five
   * after removing 12, and 8 is the next value at or above 5.
   */
  method TreapScenario(p: seq<int>) returns (size1: int, r12: Result<int>, size2: int, f5: Result<int>)
    requires |p| == 6
    ensures size1 == 6 && r12 == Ok(12) && size2 == 5 && f5 == Ok(8)
  {
    var treap := BuildTestTreap(p);
    BinaryTreesSearchTree.TestValuesCount();
    size1 := treap.Size();
    r12 := treap.Remove(12);
    size2 := treap.Size();
    f5 := treap.Find(5);
    BinaryTreesSearchTree.TestNextWithout12();
    BinaryTreesSearchTree.FindPinned(treap.Contents, 5, f5, 8);
  }
}
