/**
 * The unbalanced binary search tree of src/binarytrees/BinarySearchTree.cpp,
 * over the node arena of binary_trees.dfy. The tree object owns the arena and
 * the root pointer; the ghost state names the live nodes, their subtrees and
 * the set of stored values.
 */
module BinaryTreesSearchTree {
  import opened Wrappers
  import opened BinaryTrees

  /** The number of nodes the breadth-first count of `size` still has to visit under the queued pointers. */
  ghost function Pending(S: seq<set<int>>, q: seq<int>): nat
  {
    if q == [] then 0 else |Kids(S, q[0])| + Pending(S, q[1..])
  }

  /** Enqueueing a pointer adds its subtree to what is left to visit. */
  lemma {:induction false} PendingAppend(S: seq<set<int>>, q: seq<int>, c: int)
    ensures Pending(S, q + [c]) == Pending(S, q) + |Kids(S, c)|
  {
    if q != [] {
      assert (q + [c])[1..] == q[1..] + [c];
      PendingAppend(S, q[1..], c);
    }
  }

  /** The walk of `secondLargest` on the arena; the class method below hands its fields to it. */
  method SecondLargestIn(t: seq<BTNode>, root: int, ghost N: set<int>, ghost S: seq<set<int>>) returns (r: int)
    requires SearchTree(t, root, N, S) && |Values(t, N)| >= 2
    ensures r in Values(t, N) && |Greater(Values(t, N), r)| == 1
  {
    SizeIsCount(t, root, N, S);
    var largest := LargestNodeInSubtree(t, root, N, S, root);
    assert Greater(Values(t, N), t[largest].x) == {};
    assert Linked(t, root, N, S, largest);
    if t[largest].left == -1 {
      LargestParentPredecessor(t, root, N, S, largest);
      var p := t[largest].parent;
      PredecessorGreater(t, N, largest, p);
      r := t[p].x;
    } else {
      var m := LargestNodeInSubtree(t, root, N, S, t[largest].left);
      LeftPredecessor(t, root, N, S, largest, m);
      PredecessorGreater(t, N, largest, m);
      r := t[m].x;
    }
  }

  class BinarySearchTree {
    var nodes: seq<BTNode>
    var root: int
    ghost var N: set<int>
    ghost var S: seq<set<int>>
    ghost var Contents: set<int>

    /** The order invariant of BinarySearchTree.cpp:8-10, and the values it stores. */
    ghost predicate Valid()
      reads this
    {
      SearchTree(nodes, root, N, S) && Contents == Values(nodes, N)
    }

    /** `BinarySearchTree()` (binary_trees.h:65): an empty tree. */
    constructor ()
      ensures Valid() && Contents == {}
    {
      nodes := [];
      root := -1;
      N := {};
      S := [];
      Contents := {};
    }

    /**
     * `size()` (BinarySearchTree.cpp:48-68) as written: a breadth-first walk
     * that starts by enqueueing the root unconditionally, so on an empty tree
     * the first node it dequeues is null and is dereferenced.
     */
    method SizeAsWritten() returns (r: Result<int>)
      requires Valid()
      ensures Contents == {} ==> r == Err(NullDereference)
      ensures Contents != {} ==> r == Ok(|Contents|)
    {
      SizeIsCount(nodes, root, N, S);
      assert root != -1 ==> nodes[root].x in Contents;
      var queue := [root];
      var counter := 0;
      while |queue| > 0
        invariant root == -1 ==> queue == [root] && counter == 0
        invariant root != -1 ==> forall c :: c in queue ==> c in N
        invariant counter + Pending(S, queue) == |N|
        decreases Pending(S, queue), |queue|
      {
        var current := queue[0];
        assert current in queue;
        if current == -1 {
          return Err(NullDereference);
        }
        queue := Enqueue(queue[1..], current);
        counter := counter + 1;
      }
      r := Ok(counter);
    }

    /** The loop body of `size()`: the children of `current` that are not null are enqueued, left first. */
    method Enqueue(queue: seq<int>, current: int) returns (q2: seq<int>)
      requires Valid() && current in N && forall c :: c in queue ==> c in N
      ensures forall c :: c in q2 ==> c in N
      ensures Pending(S, q2) + 1 == Pending(S, queue) + |S[current]|
    {
      assert Linked(nodes, root, N, S, current);
      SubtreeCount(nodes, root, N, S, current);
      q2 := queue;
      if nodes[current].left != -1 {
        PendingAppend(S, q2, nodes[current].left);
        q2 := q2 + [nodes[current].left];
      }
      if nodes[current].right != -1 {
        PendingAppend(S, q2, nodes[current].right);
        q2 := q2 + [nodes[current].right];
      }
    }

    /** `size()` with the empty tree answered before the walk: the number of stored values. */
    method Size() returns (r: int)
      requires Valid()
      ensures r == |Contents|
    {
      if root == -1 {
        return 0;
      }
      assert nodes[root].x in Contents;
      var counted := SizeAsWritten();
      r := counted.value;
    }

    /**
     * `add(x)` (BinarySearchTree.cpp:78-116): false when `x` is already
     * stored; otherwise `x` is hung as a new leaf and true is returned.
     */
    method Add(x: int) returns (added: bool)
      requires Valid()
      modifies this
      ensures Valid()
      ensures added <==> x !in old(Contents)
      ensures Contents == old(Contents) + {x}
    {
      var found, prev := Locate(nodes, root, N, S, x);
      if found {
        return false;
      }
      ghost var t0, root0 := nodes, root;
      var id := |nodes|;
      nodes := nodes + [BTNode(x, prev, -1, -1)];
      if prev == -1 {
        root := id;
      } else if x < nodes[prev].x {
        nodes := nodes[prev := nodes[prev].(left := id)];
      } else if x > nodes[prev].x {
        nodes := nodes[prev := nodes[prev].(right := id)];
      }
      AttachLeaf(t0, root0, N, S, x, prev, nodes);
      N := N + {id};
      S := Grow(S, prev);
      Contents := Contents + {x};
      added := true;
    }

    /**
     * `remove(x)` (BinarySearchTree.cpp:119-155): `out_of_range` when `x` is
     * not stored. A node with at most one child is spliced out; otherwise
     * the smallest value of its right subtree is copied into it and that
     * node is spliced out instead.
     */
    method Remove(x: int) returns (r: Result<int>)
      requires Valid()
      modifies this
      ensures Valid()
      ensures x in old(Contents) ==> r == Ok(x) && Contents == old(Contents) - {x}
      ensures x !in old(Contents) ==> r == Err(NotFound) && Contents == old(Contents)
    {
      var cur := Lookup(nodes, root, N, S, x);
      if cur == -1 {
        return Err(NotFound);
      }
      if nodes[cur].left == -1 || nodes[cur].right == -1 {
        RemoveNode(cur);
      } else {
        assert Linked(nodes, root, N, S, cur);
        var smallest := SmallestNodeInSubtree(nodes, root, N, S, nodes[cur].right);
        ghost var t0 := nodes;
        nodes := nodes[cur := nodes[cur].(x := nodes[smallest].x)];
        CopyUp(t0, root, N, S, cur, smallest, nodes);
        SpliceNode(smallest);
        Contents := Contents - {x};
      }
      r := Ok(x);
    }

    /** The one-child case of `remove`: splice `u` out and forget its value. */
    method RemoveNode(u: int)
      requires Valid() && u in N && (nodes[u].left == -1 || nodes[u].right == -1)
      modifies this
      ensures Valid() && Contents == old(Contents) - {old(nodes[u].x)}
    {
      ValuesMinus(nodes, root, N, S, u);
      OrderedLeaving(nodes, root, N, S, u);
      ghost var x := nodes[u].x;
      SpliceNode(u);
      Contents := Contents - {x};
    }

    /** `splice(u)` on the tree's own arena; the values stay those of the remaining nodes. */
    method SpliceNode(u: int)
      requires Shape(nodes, root, N, S) && OrderedBut(nodes, N, S, u)
      requires u in N && (nodes[u].left == -1 || nodes[u].right == -1)
      modifies this
      ensures SearchTree(nodes, root, N, S) && N == old(N) - {u}
      ensures Values(nodes, N) == Values(old(nodes), N) && Contents == old(Contents)
    {
      ghost var t0 := nodes;
      nodes, root := Splice(nodes, root, N, S, u);
      SameValues(t0, nodes, N - {u});
      N := N - {u};
      S := Shrink(S, u);
    }

    /** `find(x)` (BinarySearchTree.cpp:168-198): `x`, else the next larger stored value, else `out_of_range`. */
    method Find(x: int) returns (r: Result<int>)
      requires Valid()
      ensures r.Ok? ==> r.value in Contents && x <= r.value && forall w :: w in Contents && x <= w ==> r.value <= w
      ensures r.Err? ==> r.error == NoLargerValue && forall w :: w in Contents ==> w < x
    {
      r := BinaryTrees.Find(nodes, root, N, S, x);
    }

    /**
     * `secondLargest()` (BinarySearchTree.cpp:254-264): the parent of the
     * largest node when that node has no left child, otherwise the largest
     * value of its left subtree. Needs two values to exist.
     */
    method SecondLargest() returns (r: int)
      requires Valid() && |Contents| >= 2
      ensures r in Contents && |Greater(Contents, r)| == 1
    {
      r := SecondLargestIn(nodes, root, N, S);
    }

    /**
     * `nthLargest(n)` (BinarySearchTree.cpp:276-290): start at the largest
     * node and step to the predecessor `n - 1` times; for `n <= 1` that is
     * the largest value. Needs at least `n` values.
     */
    method NthLargest(n: int) returns (r: int)
      requires Valid() && Contents != {} && n <= |Contents|
      ensures r in Contents && |Greater(Contents, r)| == Max(n, 1) - 1
    {
      var cur := LargestNodeInSubtree(nodes, root, N, S, root);
      assert Greater(Contents, nodes[cur].x) == {};
      var i := n;
      while i > 1
        invariant cur in N && (n > 1 ==> 1 <= i <= n) && (n <= 1 ==> i == n)
        invariant |Greater(Contents, nodes[cur].x)| == Max(n, 1) - Max(i, 1)
      {
        cur := NextSmaller(cur);
        i := i - 1;
      }
      r := nodes[cur].x;
    }

    /**
     * The step of `nthLargest`: from node `u` to the node holding the next
     * smaller value, by `findSmallerParent` when `u` has no left child and
     * otherwise by the largest node of its left subtree.
     */
    method NextSmaller(u: int) returns (p: int)
      requires Valid() && u in N && |Greater(Contents, nodes[u].x)| + 1 < |Contents|
      ensures p in N && Predecessor(nodes, N, u, p)
      ensures |Greater(Contents, nodes[p].x)| == |Greater(Contents, nodes[u].x)| + 1
    {
      assert Linked(nodes, root, N, S, u);
      if nodes[u].left == -1 {
        SomeSmaller(nodes, N, u);
        p := FindSmallerParent(nodes, root, N, S, u);
      } else {
        p := LargestNodeInSubtree(nodes, root, N, S, nodes[u].left);
        LeftPredecessor(nodes, root, N, S, u, p);
      }
      PredecessorGreater(nodes, N, u, p);
    }
  }
  // ---------------------------------------------------------------------------
  // The scenario of spec/src/binary_tree_spec.cpp:11-51

  /** The values spec/src/binary_tree_spec.cpp stores in its trees. */
  function TestValues(): set<int>
  {
    {} + {8} + {3} + {4} + {10} + {9} + {12}
  }


  /** The six test values are distinct. */
  lemma TestValuesCount()
    ensures |TestValues()| == 6 && |TestValues() - {10}| == 5 && |TestValues() - {10} - {8}| == 4
    ensures |TestValues() - {12}| == 5
  {
  }

  /** A `find(x)` result is pinned down once the smallest value at or above `x` is known. */
  lemma FindPinned(V: set<int>, x: int, r: Result<int>, e: int)
    requires r.Ok? ==> r.value in V && x <= r.value && forall w :: w in V && x <= w ==> r.value <= w
    requires r.Err? ==> forall w :: w in V ==> w < x
    requires e in V && x <= e && forall w :: w in V && x <= w ==> e <= w
    ensures r == Ok(e)
  {
  }

  /** The smallest test values at or above 7, 11, 8 and 4 are 8, 12, 8 and 4. */
  lemma TestNext(x: int, e: int)
    requires (x, e) in {(7, 8), (11, 12), (8, 8), (4, 4)}
    ensures e in TestValues() && x <= e && forall w :: w in TestValues() && x <= w ==> e <= w
  {
  }

  /** Once 12 is gone, the smallest test value at or above 5 is 8. */
  lemma TestNextWithout12()
    ensures 8 in TestValues() - {12} && forall w :: w in TestValues() - {12} && 5 <= w ==> 8 <= w
  {
  }

  /** Adding a new value `x` adds one to the count of values above `r` exactly when `x` is above `r`. */
  lemma GreaterAdd(A: set<int>, x: int, r: int)
    requires x !in A
    ensures |Greater(A + {x}, r)| == |Greater(A, r)| + if r < x then 1 else 0
  {
    if r < x {
      assert Greater(A + {x}, r) == Greater(A, r) + {x};
    } else {
      assert Greater(A + {x}, r) == Greater(A, r);
    }
  }

  /** The test value with `j` test values above it: 12, 10, 9, 8, 4, 3 for `j` from 0 to 5. */
  lemma TestRanks(r: int, j: int)
    requires r in TestValues() && |Greater(TestValues(), r)| == j
    ensures 0 <= j < 6
    ensures j == 0 ==> r == 12
    ensures j == 1 ==> r == 10
    ensures j == 2 ==> r == 9
    ensures j == 3 ==> r == 8
    ensures j == 4 ==> r == 4
    ensures j == 5 ==> r == 3
  {
    assert Greater({}, r) == {};
    GreaterAdd({}, 8, r);
    GreaterAdd({} + {8}, 3, r);
    GreaterAdd({} + {8} + {3}, 4, r);
    GreaterAdd({} + {8} + {3} + {4}, 10, r);
    GreaterAdd({} + {8} + {3} + {4} + {10}, 9, r);
    GreaterAdd({} + {8} + {3} + {4} + {10} + {9}, 12, r);
  }

  /** Adding 8, 3, 4, 10, 9, 12 to an empty tree (binary_tree_spec.cpp:12-20), each add succeeding. */
  method BuildTestTree() returns (bst: BinarySearchTree)
    ensures fresh(bst) && bst.Valid() && bst.Contents == TestValues()
  {
    bst := new BinarySearchTree();
    var a1 := bst.Add(8);
    var a2 := bst.Add(3);
    var a3 := bst.Add(4);
    var a4 := bst.Add(10);
    var a5 := bst.Add(9);
    var a6 := bst.Add(12);
  }

  /** binary_tree_spec.cpp:24-29: six values; the next values at or above 7, 11, 8, 4 are 8, 12, 8, 4. */
  method FindScenario() returns (size: int, f7: Result<int>, f11: Result<int>, f8: Result<int>, f4: Result<int>)
    ensures size == 6 && f7 == Ok(8) && f11 == Ok(12) && f8 == Ok(8) && f4 == Ok(4)
  {
    var bst := BuildTestTree();
    size := bst.Size();
    TestValuesCount();
    f7 := bst.Find(7);
    TestNext(7, 8);
    FindPinned(bst.Contents, 7, f7, 8);
    f11 := bst.Find(11);
    TestNext(11, 12);
    FindPinned(bst.Contents, 11, f11, 12);
    f8 := bst.Find(8);
    TestNext(8, 8);
    FindPinned(bst.Contents, 8, f8, 8);
    f4 := bst.Find(4);
    TestNext(4, 4);
    FindPinned(bst.Contents, 4, f4, 4);
  }

  /** binary_tree_spec.cpp:31: the second largest test value is 10. */
  method SecondScenario() returns (second: int)
    ensures second == 10
  {
    var bst := BuildTestTree();
    TestValuesCount();
    second := bst.SecondLargest();
    TestRanks(second, 1);
  }

  /** binary_tree_spec.cpp:33-38: `nthLargest` of 1 to 6 gives 12, 10, 9, 8, 4, 3. */
  method RankScenario() returns (ranked: seq<int>)
    ensures ranked == [12, 10, 9, 8, 4, 3]
  {
    var bst := BuildTestTree();
    TestValuesCount();
    var r1 := bst.NthLargest(1);
    TestRanks(r1, 0);
    var r2 := bst.NthLargest(2);
    TestRanks(r2, 1);
    var r3 := bst.NthLargest(3);
    TestRanks(r3, 2);
    var r4 := bst.NthLargest(4);
    TestRanks(r4, 3);
    var r5 := bst.NthLargest(5);
    TestRanks(r5, 4);
    var r6 := bst.NthLargest(6);
    TestRanks(r6, 5);
    ranked := [r1, r2, r3, r4, r5, r6];
  }

  /** `remove(x)` of a stored value followed by `size()`. */
  method RemoveAndCount(bst: BinarySearchTree, x: int) returns (r: Result<int>, size: int)
    requires bst.Valid() && x in bst.Contents
    modifies bst
    ensures bst.Valid() && bst.Contents == old(bst.Contents) - {x} && r == Ok(x) && size == |bst.Contents|
  {
    r := bst.Remove(x);
    size := bst.Size();
  }

  /** binary_tree_spec.cpp:40-41: removing 10 leaves five values, removing the root value 8 then leaves four. */
  method RemoveScenario() returns (r10: Result<int>, size1: int, r8: Result<int>, size2: int)
    ensures r10 == Ok(10) && size1 == 5 && r8 == Ok(8) && size2 == 4
  {
    var bst := BuildTestTree();
    TestValuesCount();
    r10, size1 := RemoveAndCount(bst, 10);
    r8, size2 := RemoveAndCount(bst, 8);
  }

  /** binary_tree_spec.cpp:43-51: in the tree holding only 8, 7 finds 8, 11 finds nothing larger, 8 finds 8. */
  method SingleScenario() returns (f7: Result<int>, f11: Result<int>, f8: Result<int>)
    ensures f7 == Ok(8) && f11 == Err(NoLargerValue) && f8 == Ok(8)
  {
    var bst := new BinarySearchTree();
    var added := bst.Add(8);
    f7 := bst.Find(7);
    f11 := bst.Find(11);
    f8 := bst.Find(8);
  }

  /** On a new, empty tree `size()` as written dereferences null, while the corrected count is 0. */
  method EmptySizeScenario() returns (asWritten: Result<int>, corrected: int)
    ensures asWritten == Err(NullDereference) && corrected == 0
  {
    var bst := new BinarySearchTree();
    asWritten := bst.SizeAsWritten();
    corrected := bst.Size();
  }
}
