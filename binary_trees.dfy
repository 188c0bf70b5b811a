/**
 * The node layout shared by the tree containers (include/ds/binary_trees.h).
 *
 * Nodes live in an arena `t: seq<BTNode>`: a `BTNode<T>*` is an index into it
 * and `-1` is `nullptr`; `delete` leaves the slot in place, unreachable. The
 * ghost description of a tree is the set `N` of live ids and, for every live
 * id `k`, the set `S[k]` of ids in the subtree under `k`. Every pointer update
 * then only touches the sets of the nodes it rewires (or removes one id from,
 * or adds one id to, all of them), which keeps the proofs local.
 */
module BinaryTrees {
  import opened Wrappers

  /** `BTNode<T>` with `T = int`: the value and the three links (`-1` is null). */
  datatype BTNode = BTNode(x: int, parent: int, left: int, right: int)

  /** The ids below pointer `c`; nothing below null. */
  function Kids(S: seq<set<int>>, c: int): set<int>
  {
    if 0 <= c < |S| then S[c] else {}
  }

  /** Pointer `c` is null, or a live node whose parent link is `k`. */
  predicate Child(t: seq<BTNode>, N: set<int>, k: int, c: int)
  {
    c == -1 || (c in N && 0 <= c < |t| && t[c].parent == k)
  }

  /**
   * The links of live node `k` agree with its children and its parent, only the
   * root has no parent, and `S[k]` is `k` plus the two disjoint child subtrees.
   */
  ghost predicate Linked(t: seq<BTNode>, root: int, N: set<int>, S: seq<set<int>>, k: int)
    requires 0 <= k < |t| == |S|
  {
    var u := t[k];
    Child(t, N, k, u.left) && Child(t, N, k, u.right) &&
    (u.parent == -1 <==> k == root) &&
    (u.parent != -1 ==>
      u.parent in N && 0 <= u.parent < |t| && (t[u.parent].left == k || t[u.parent].right == k)) &&
    S[k] == {k} + Kids(S, u.left) + Kids(S, u.right) &&
    k !in Kids(S, u.left) && k !in Kids(S, u.right) && Kids(S, u.left) !! Kids(S, u.right)
  }

  /** `t` holds a binary tree rooted at `root` whose nodes are exactly `N`. */
  ghost predicate Shape(t: seq<BTNode>, root: int, N: set<int>, S: seq<set<int>>)
  {
    |S| == |t| &&
    (root == -1 ==> N == {}) &&
    (root != -1 ==> root in N && 0 <= root < |S| && S[root] == N) &&
    (forall k :: k in N ==> 0 <= k < |t| && S[k] <= N) &&
    (forall k {:trigger Linked(t, root, N, S, k)} :: k in N && 0 <= k < |t| ==> Linked(t, root, N, S, k))
  }

  /** At node `k`, left values are smaller and right values larger, ignoring node `e`. */
  ghost predicate OrderedAt(t: seq<BTNode>, S: seq<set<int>>, k: int, e: int)
    requires 0 <= k < |t| == |S|
  {
    (forall j :: j in Kids(S, t[k].left) && j != e ==> 0 <= j < |t| && t[j].x < t[k].x) &&
    (forall j :: j in Kids(S, t[k].right) && j != e ==> 0 <= j < |t| && t[k].x < t[j].x)
  }

  /** The binary-search-tree order holds at every node, leaving node `e` out of it. */
  ghost predicate OrderedBut(t: seq<BTNode>, N: set<int>, S: seq<set<int>>, e: int)
    requires |t| == |S|
  {
    forall k :: k in N && k != e && 0 <= k < |t| ==> OrderedAt(t, S, k, e)
  }

  /**
   * The invariant of BinarySearchTree.cpp:8-10: a tree in which every left
   * subtree holds smaller values and every right subtree larger ones.
   */
  ghost predicate SearchTree(t: seq<BTNode>, root: int, N: set<int>, S: seq<set<int>>)
  {
    Shape(t, root, N, S) && OrderedBut(t, N, S, -1)
  }

  /** The values stored in the live nodes. */
  ghost function Values(t: seq<BTNode>, N: set<int>): set<int>
  {
    set k | k in N && 0 <= k < |t| :: t[k].x
  }

  /** The stored values strictly greater than `v`. */
  function Greater(V: set<int>, v: int): set<int>
  {
    set w | w in V && v < w
  }

  /** Node `p` holds the largest value smaller than node `u`'s. */
  ghost predicate Predecessor(t: seq<BTNode>, N: set<int>, u: int, p: int)
    requires 0 <= u < |t|
  {
    p in N && 0 <= p < |t| && t[p].x < t[u].x &&
    forall k :: k in N && 0 <= k < |t| ==> !(t[p].x < t[k].x < t[u].x)
  }

  // ---------------------------------------------------------------------------
  // Structure of a shaped arena

  /** A node inside `k`'s subtree has its own subtree inside `k`'s. */
  lemma {:induction false} SubClosed(t: seq<BTNode>, root: int, N: set<int>, S: seq<set<int>>, k: int, j: int)
    requires Shape(t, root, N, S) && k in N && j in S[k]
    ensures j in N && S[j] <= S[k]
    decreases S[k]
  {
    if j != k {
      assert Linked(t, root, N, S, k);
      var l, r := t[k].left, t[k].right;
      if j in Kids(S, l) {
        SubClosed(t, root, N, S, l, j);
      } else {
        SubClosed(t, root, N, S, r, j);
      }
    }
  }

  /** A node strictly inside `k`'s subtree has its parent inside it too. */
  lemma {:induction false} ParentInside(t: seq<BTNode>, root: int, N: set<int>, S: seq<set<int>>, k: int, j: int)
    requires Shape(t, root, N, S) && k in N && j in S[k] && j != k
    ensures j in N && t[j].parent in S[k]
    decreases S[k]
  {
    assert Linked(t, root, N, S, k);
    var l, r := t[k].left, t[k].right;
    var c := if j in Kids(S, l) then l else r;
    assert j in S[c] && c in N;
    if j != c {
      ParentInside(t, root, N, S, c, j);
    }
  }

  /** The root lies in no other node's subtree. */
  lemma RootOnTop(t: seq<BTNode>, root: int, N: set<int>, S: seq<set<int>>, k: int)
    requires Shape(t, root, N, S) && k in N
    ensures root in S[k] ==> k == root
  {
    if root in S[k] && k != root {
      assert Linked(t, root, N, S, root);
      var l, r := t[root].left, t[root].right;
      var c := if k in Kids(S, l) then l else r;
      SubClosed(t, root, N, S, c, k);
    }
  }

  /** A subtree has one node more than its two child subtrees together. */
  lemma SubtreeCount(t: seq<BTNode>, root: int, N: set<int>, S: seq<set<int>>, k: int)
    requires Shape(t, root, N, S) && k in N
    ensures |S[k]| == 1 + |Kids(S, t[k].left)| + |Kids(S, t[k].right)|
  {
    assert Linked(t, root, N, S, k);
    var L, R := Kids(S, t[k].left), Kids(S, t[k].right);
    assert L * R == {};
    assert {k} * (L + R) == {};
  }

  /**
   * In a search tree a node outside the subtree of `c` is either below all of
   * it or above all of it.
   */
  lemma {:induction false} Separated(t: seq<BTNode>, root: int, N: set<int>, S: seq<set<int>>, c: int, k: int)
    requires SearchTree(t, root, N, S) && c in N && k in N && k !in S[c]
    ensures (forall j :: j in S[c] ==> t[k].x < t[j].x) || (forall j :: j in S[c] ==> t[j].x < t[k].x)
    decreases N - S[c]
  {
    assert Linked(t, root, N, S, c);
    var p := t[c].parent;
    assert p in N && Linked(t, root, N, S, p) && OrderedAt(t, S, p, -1);
    assert S[c] <= S[p] && p in S[p] && p !in S[c];
    if k == p {
    } else if k in S[p] {
      if c == t[p].left {
        assert k in Kids(S, t[p].right);
        assert forall j :: j in S[c] ==> t[j].x < t[k].x;
      } else {
        assert k in Kids(S, t[p].left);
        assert forall j :: j in S[c] ==> t[k].x < t[j].x;
      }
    } else {
      Separated(t, root, N, S, p, k);
    }
  }

  /** Distinct nodes of a search tree hold distinct values. */
  lemma Distinct(t: seq<BTNode>, root: int, N: set<int>, S: seq<set<int>>, j: int, k: int)
    requires SearchTree(t, root, N, S) && j in N && k in N && j != k
    ensures t[j].x != t[k].x
  {
    if k in S[j] {
      assert Linked(t, root, N, S, j) && OrderedAt(t, S, j, -1);
    } else {
      assert Linked(t, root, N, S, j);
      Separated(t, root, N, S, j, k);
    }
  }

  /** The largest value below the leftmost-free node `u` sits on its parent chain, at `q`. */
  lemma AncestorPredecessor(t: seq<BTNode>, root: int, N: set<int>, S: seq<set<int>>, u: int, q: int, c: int)
    requires SearchTree(t, root, N, S) && q in N && c in N && t[c].parent == q
    requires u in S[c] && t[q].x < t[u].x && forall j :: j in S[c] ==> t[u].x <= t[j].x
    ensures Predecessor(t, N, u, q)
  {
    assert Linked(t, root, N, S, c) && Linked(t, root, N, S, q) && OrderedAt(t, S, q, -1);
    assert c == t[q].right;
    forall k | k in N && 0 <= k < |t|
      ensures !(t[q].x < t[k].x < t[u].x)
    {
      if k !in S[q] {
        Separated(t, root, N, S, q, k);
      }
    }
  }

  /** The largest value in the left subtree of `u` is the largest value below `u`'s. */
  lemma LeftPredecessor(t: seq<BTNode>, root: int, N: set<int>, S: seq<set<int>>, u: int, m: int)
    requires SearchTree(t, root, N, S) && u in N && t[u].left != -1
    requires 0 <= m < |t| && m in Kids(S, t[u].left)
    requires forall j :: j in Kids(S, t[u].left) && 0 <= j < |t| ==> t[j].x <= t[m].x
    ensures Predecessor(t, N, u, m)
  {
    assert Linked(t, root, N, S, u) && OrderedAt(t, S, u, -1);
    SubClosed(t, root, N, S, u, m);
    forall k | k in N && 0 <= k < |t|
      ensures !(t[m].x < t[k].x < t[u].x)
    {
      if k !in S[u] {
        Separated(t, root, N, S, u, k);
      }
    }
  }

  /**
   * The largest node of a search tree with two or more nodes, when it has no
   * left child, has a parent, and that parent holds the next smaller value.
   */
  lemma LargestParentPredecessor(t: seq<BTNode>, root: int, N: set<int>, S: seq<set<int>>, m: int)
    requires SearchTree(t, root, N, S) && root != -1 && |N| >= 2
    requires m in N && t[m].left == -1 && t[m].right == -1 && forall j :: j in S[root] ==> t[j].x <= t[m].x
    ensures t[m].parent != -1 && Predecessor(t, N, m, t[m].parent)
  {
    assert Linked(t, root, N, S, m);
    var p := t[m].parent;
    assert p != -1 by {
      assert m == root ==> N == {root};
    }
    Distinct(t, root, N, S, m, p);
    AncestorPredecessor(t, root, N, S, m, p, m);
  }

  /** Stepping from a value to its predecessor adds exactly that value to the ones above. */
  lemma PredecessorGreater(t: seq<BTNode>, N: set<int>, u: int, p: int)
    requires u in N && 0 <= u < |t| && Predecessor(t, N, u, p)
    ensures Greater(Values(t, N), t[p].x) == Greater(Values(t, N), t[u].x) + {t[u].x}
    ensures |Greater(Values(t, N), t[p].x)| == |Greater(Values(t, N), t[u].x)| + 1
  {
    var V := Values(t, N);
    forall w | w in Greater(V, t[p].x)
      ensures w in Greater(V, t[u].x) + {t[u].x}
    {
      var k :| k in N && 0 <= k < |t| && t[k].x == w;
    }
    assert t[u].x in V;
  }

  /** A value with fewer than `|V| - 1` values above it has one below it. */
  lemma SomeSmaller(t: seq<BTNode>, N: set<int>, u: int)
    requires u in N && 0 <= u < |t| && |Greater(Values(t, N), t[u].x)| + 1 < |Values(t, N)|
    ensures exists k :: k in N && 0 <= k < |t| && t[k].x < t[u].x
  {
    var V := Values(t, N);
    var G := Greater(V, t[u].x) + {t[u].x};
    var L := set w | w in V && w < t[u].x;
    assert V == G + L;
    assert G * L == {};
    assert |G| == |Greater(V, t[u].x)| + 1;
    var w :| w in L;
    var k :| k in N && 0 <= k < |t| && t[k].x == w;
  }

  // ---------------------------------------------------------------------------
  // Searches shared by BinarySearchTree and Treap

  /**
   * `find(x)` (BinarySearchTree.cpp:168-198, repeated in Treap.cpp:266-297):
   * `x` itself when stored, otherwise the smallest stored value above it, and
   * `out_of_range` when there is none.
   */
  method Find(t: seq<BTNode>, root: int, ghost N: set<int>, ghost S: seq<set<int>>, v: int) returns (r: Result<int>)
    requires SearchTree(t, root, N, S)
    ensures r.Ok? ==>
      r.value in Values(t, N) && v <= r.value &&
      forall w :: w in Values(t, N) && v <= w ==> r.value <= w
    ensures r.Err? ==> r.error == NoLargerValue && forall w :: w in Values(t, N) ==> w < v
  {
    var previousBig := -1;
    var cur := root;
    while cur != -1
      invariant cur == -1 || cur in N
      invariant previousBig == -1 || (previousBig in N && v < t[previousBig].x)
      invariant previousBig != -1 ==> forall j :: j in Kids(S, cur) ==> t[j].x < t[previousBig].x
      invariant forall k :: k in N && k !in Kids(S, cur) ==>
                  t[k].x < v || (previousBig != -1 && t[previousBig].x <= t[k].x)
      decreases Kids(S, cur)
    {
      assert Linked(t, root, N, S, cur) && OrderedAt(t, S, cur, -1);
      if v == t[cur].x {
        return Ok(v);
      } else if v < t[cur].x {
        previousBig := cur;
        cur := t[cur].left;
      } else {
        cur := t[cur].right;
      }
    }
    if previousBig == -1 {
      // The source still returns `root->x` when it exceeds `x`; every value is below `x` here, so it never does.
      assert root == -1 || t[root].x < v;
      r := Err(NoLargerValue);
    } else {
      r := Ok(t[previousBig].x);
    }
  }

  /** `largestNodeInSubtree` (BinarySearchTree.cpp:240-251): keep going right; null for a null start. */
  method LargestNodeInSubtree(t: seq<BTNode>, root: int, ghost N: set<int>, ghost S: seq<set<int>>, start: int)
    returns (m: int)
    requires SearchTree(t, root, N, S) && (start == -1 || start in N)
    ensures start == -1 ==> m == -1
    ensures start != -1 ==>
      m in S[start] && m in N && t[m].right == -1 && forall j :: j in S[start] ==> t[j].x <= t[m].x
  {
    m := -1;
    var cur := start;
    while cur != -1
      invariant cur == -1 || cur in N
      invariant m == -1 ==> cur == start
      invariant m != -1 ==> start != -1 && m in S[start] && m in N && cur == t[m].right
      invariant start != -1 ==> Kids(S, cur) <= S[start]
      invariant m != -1 ==> forall j :: j in S[start] && j !in Kids(S, cur) ==> t[j].x <= t[m].x
      decreases Kids(S, cur)
    {
      assert Linked(t, root, N, S, cur) && OrderedAt(t, S, cur, -1);
      if m != -1 {
        assert Linked(t, root, N, S, m) && OrderedAt(t, S, m, -1);
      }
      m := cur;
      cur := t[cur].right;
    }
  }

  /** `smallestNodeInSubtree` (BinarySearchTree.cpp:227-238): keep going left; null for a null start. */
  method SmallestNodeInSubtree(t: seq<BTNode>, root: int, ghost N: set<int>, ghost S: seq<set<int>>, start: int)
    returns (m: int)
    requires SearchTree(t, root, N, S) && (start == -1 || start in N)
    ensures start == -1 ==> m == -1
    ensures start != -1 ==>
      m in S[start] && m in N && t[m].left == -1 && forall j :: j in S[start] ==> t[m].x <= t[j].x
  {
    m := -1;
    var cur := start;
    while cur != -1
      invariant cur == -1 || cur in N
      invariant m == -1 ==> cur == start
      invariant m != -1 ==> start != -1 && m in S[start] && m in N && cur == t[m].left
      invariant start != -1 ==> Kids(S, cur) <= S[start]
      invariant m != -1 ==> forall j :: j in S[start] && j !in Kids(S, cur) ==> t[m].x <= t[j].x
      decreases Kids(S, cur)
    {
      assert Linked(t, root, N, S, cur) && OrderedAt(t, S, cur, -1);
      if m != -1 {
        assert Linked(t, root, N, S, m) && OrderedAt(t, S, m, -1);
      }
      m := cur;
      cur := t[cur].left;
    }
  }

  /**
   * `findSmallerParent` (BinarySearchTree.cpp:266-274): climb from `u` while the
   * values stay above `u`'s. Called only on a node without a left child, whose
   * value is not the smallest; the node reached holds its predecessor.
   */
  method FindSmallerParent(t: seq<BTNode>, root: int, ghost N: set<int>, ghost S: seq<set<int>>, u: int)
    returns (q: int)
    requires SearchTree(t, root, N, S) && u in N && t[u].left == -1
    requires exists k :: k in N && 0 <= k < |t| && t[k].x < t[u].x
    ensures q in N && u in S[q] && Predecessor(t, N, u, q)
  {
    ghost var c := u;
    assert Linked(t, root, N, S, u) && OrderedAt(t, S, u, -1);
    NotAtRoot(t, root, N, S, u, u);
    var next := t[u].parent;
    while t[next].x > t[u].x
      invariant c in N && c != root && next == t[c].parent && next in N
      invariant u in S[c] && forall j :: j in S[c] ==> t[u].x <= t[j].x
      decreases N - S[c]
    {
      ClimbStep(t, root, N, S, u, c);
      c := next;
      NotAtRoot(t, root, N, S, u, c);
      next := t[next].parent;
    }
    assert Linked(t, root, N, S, c) && Linked(t, root, N, S, next);
    assert u in S[next];
    Distinct(t, root, N, S, u, next);
    AncestorPredecessor(t, root, N, S, u, next, c);
    q := next;
  }

  /** While every value under `c` is at least `u`'s and some value is smaller, `c` is not the root. */
  lemma NotAtRoot(t: seq<BTNode>, root: int, N: set<int>, S: seq<set<int>>, u: int, c: int)
    requires Shape(t, root, N, S) && c in N && u in N && 0 <= u < |t|
    requires forall j :: j in S[c] ==> t[u].x <= t[j].x
    requires exists k :: k in N && 0 <= k < |t| && t[k].x < t[u].x
    ensures c != root && t[c].parent in N
  {
    var k :| k in N && 0 <= k < |t| && t[k].x < t[u].x;
    assert k !in S[c];
    assert Linked(t, root, N, S, c);
  }

  /**
   * One step of the climb in `findSmallerParent`: when the parent of `c` is
   * above `u`, `c` is its left child and the parent's whole subtree stays at or
   * above `u`.
   */
  lemma ClimbStep(t: seq<BTNode>, root: int, N: set<int>, S: seq<set<int>>, u: int, c: int)
    requires SearchTree(t, root, N, S) && c in N && c != root && u in N && 0 <= u < |t|
    requires u in S[c] && forall j :: j in S[c] ==> t[u].x <= t[j].x
    requires t[c].parent in N && t[t[c].parent].x > t[u].x
    ensures var p := t[c].parent; u in S[p] && S[c] < S[p] && forall j :: j in S[p] ==> t[u].x <= t[j].x
  {
    var p := t[c].parent;
    assert Linked(t, root, N, S, c) && Linked(t, root, N, S, p) && OrderedAt(t, S, p, -1);
    assert c == t[p].left;
  }

  // ---------------------------------------------------------------------------
  // Adding a leaf

  /** `v` lies on the same side as node `c` of every node above `c`. */
  ghost predicate SameSide(t: seq<BTNode>, N: set<int>, S: seq<set<int>>, c: int, v: int)
    requires |t| == |S|
  {
    (forall k :: k in N && 0 <= k < |t| && c in Kids(S, t[k].left) ==> v < t[k].x) &&
    (forall k :: k in N && 0 <= k < |t| && c in Kids(S, t[k].right) ==> t[k].x < v)
  }

  /**
   * Where `add` hangs a new leaf holding `v`: below `prev` on the side `v`
   * falls on, that side being null, or at the root of an empty tree.
   */
  ghost predicate AttachPoint(t: seq<BTNode>, root: int, N: set<int>, S: seq<set<int>>, v: int, prev: int)
    requires |t| == |S|
  {
    (prev == -1 ==> root == -1) &&
    (prev != -1 ==>
      prev in N && 0 <= prev < |t| && t[prev].x != v &&
      (v < t[prev].x ==> t[prev].left == -1) && (t[prev].x < v ==> t[prev].right == -1) &&
      SameSide(t, N, S, prev, v))
  }

  /** The arena after `new BTNode(x)` with parent `prev` is hung on the side of `prev` that `v` falls on. */
  ghost predicate Attached(t: seq<BTNode>, t2: seq<BTNode>, prev: int, v: int)
  {
    |t2| == |t| + 1 && t2[|t|] == BTNode(v, prev, -1, -1) &&
    (forall k :: 0 <= k < |t| && k != prev ==> t2[k] == t[k]) &&
    (prev != -1 ==>
      0 <= prev < |t| &&
      t2[prev] == if v < t[prev].x then t[prev].(left := |t|) else t[prev].(right := |t|))
  }

  /** The subtree sets after a new id `|S|` is hung below `a`: every subtree holding `a` gains it. */
  ghost function Grow(S: seq<set<int>>, a: int): (S2: seq<set<int>>)
    ensures |S2| == |S| + 1 && S2[|S|] == {|S|}
    ensures forall k :: 0 <= k < |S| ==> S2[k] == if a in S[k] then S[k] + {|S|} else S[k]
  {
    seq(|S| + 1, k requires 0 <= k <= |S| => if k == |S| then {k} else if a in S[k] then S[k] + {|S|} else S[k])
  }

  /** The root's side condition holds of every value: nothing lies above the root. */
  lemma RootSameSide(t: seq<BTNode>, root: int, N: set<int>, S: seq<set<int>>, v: int)
    requires Shape(t, root, N, S) && root != -1
    ensures SameSide(t, N, S, root, v)
  {
    forall k | k in N && 0 <= k < |t|
      ensures root !in Kids(S, t[k].left) && root !in Kids(S, t[k].right)
    {
      assert Linked(t, root, N, S, k) && Linked(t, root, N, S, root);
      if t[k].left != -1 {
        RootOnTop(t, root, N, S, t[k].left);
      }
      if t[k].right != -1 {
        RootOnTop(t, root, N, S, t[k].right);
      }
    }
  }

  /** Stepping from `c` down to its child on `v`'s side keeps the side condition. */
  lemma SameSideStep(t: seq<BTNode>, root: int, N: set<int>, S: seq<set<int>>, v: int, c: int)
    requires SearchTree(t, root, N, S) && c in N && t[c].x != v && SameSide(t, N, S, c, v)
    ensures var d := if v < t[c].x then t[c].left else t[c].right;
            d != -1 ==> SameSide(t, N, S, d, v)
  {
    var d := if v < t[c].x then t[c].left else t[c].right;
    if d != -1 {
      assert Linked(t, root, N, S, c);
      forall k | k in N && 0 <= k < |t| && d in Kids(S, t[k].left)
        ensures v < t[k].x
      {
        assert Linked(t, root, N, S, k);
        if d != t[k].left {
          ParentInside(t, root, N, S, t[k].left, d);
        }
      }
      forall k | k in N && 0 <= k < |t| && d in Kids(S, t[k].right)
        ensures t[k].x < v
      {
        assert Linked(t, root, N, S, k);
        if d != t[k].right {
          ParentInside(t, root, N, S, t[k].right, d);
        }
      }
    }
  }

  /**
   * The descent of `add` (BinarySearchTree.cpp:79-96, repeated in
   * Treap.cpp:140-158): stop at `v`, or at the null link where `v` belongs.
   */
  method Locate(t: seq<BTNode>, root: int, ghost N: set<int>, ghost S: seq<set<int>>, v: int)
    returns (found: bool, prev: int)
    requires SearchTree(t, root, N, S)
    ensures found <==> v in Values(t, N)
    ensures !found ==> AttachPoint(t, root, N, S, v, prev)
  {
    found := false;
    prev := -1;
    var cur := root;
    if root != -1 {
      RootSameSide(t, root, N, S, v);
    }
    while cur != -1
      invariant cur == -1 || cur in N
      invariant prev == -1 ==> cur == root
      invariant prev != -1 ==>
        prev in N && t[prev].x != v && SameSide(t, N, S, prev, v) &&
        cur == if v < t[prev].x then t[prev].left else t[prev].right
      invariant cur != -1 ==> SameSide(t, N, S, cur, v)
      invariant forall k :: k in N && k !in Kids(S, cur) ==> t[k].x != v
      decreases Kids(S, cur)
    {
      assert Linked(t, root, N, S, cur) && OrderedAt(t, S, cur, -1);
      if v == t[cur].x {
        found := true;
        return;
      }
      SameSideStep(t, root, N, S, v, cur);
      prev := cur;
      if v < t[cur].x {
        cur := t[cur].left;
      } else {
        cur := t[cur].right;
      }
    }
  }

  /** A node of the old tree keeps its parent and child links once the leaf is hung. */
  lemma AttachLinks(t: seq<BTNode>, root: int, N: set<int>, S: seq<set<int>>, v: int, prev: int,
                    t2: seq<BTNode>, k: int)
    requires Shape(t, root, N, S) && AttachPoint(t, root, N, S, v, prev) && Attached(t, t2, prev, v)
    requires k in N
    ensures var u := t2[k];
      Child(t2, N + {|t|}, k, u.left) && Child(t2, N + {|t|}, k, u.right) &&
      (u.parent == -1 <==> k == root) &&
      (u.parent != -1 ==>
        u.parent in N + {|t|} && 0 <= u.parent < |t2| && (t2[u.parent].left == k || t2[u.parent].right == k))
  {
    assert Linked(t, root, N, S, k);
    var p := t[k].parent;
    if p != -1 {
      assert t2[p].left == k || t2[p].right == k;
    }
  }

  /** Below an old pointer other than the new leaf, the grown sets are the old ones, plus the new id exactly when `prev` is below. */
  lemma GrowKids(S: seq<set<int>>, prev: int, c: int)
    requires c < |S|
    ensures Kids(Grow(S, prev), c) == if prev in Kids(S, c) then Kids(S, c) + {|S|} else Kids(S, c)
  {
  }

  /** A node of the old tree gains the new id in its subtree exactly when `prev` is below it. */
  lemma AttachSets(t: seq<BTNode>, root: int, N: set<int>, S: seq<set<int>>, v: int, prev: int,
                   t2: seq<BTNode>, k: int)
    requires Shape(t, root, N, S) && AttachPoint(t, root, N, S, v, prev) && Attached(t, t2, prev, v)
    requires k in N
    ensures var S2 := Grow(S, prev); var u := t2[k];
      S2[k] <= N + {|t|} &&
      S2[k] == {k} + Kids(S2, u.left) + Kids(S2, u.right) &&
      k !in Kids(S2, u.left) && k !in Kids(S2, u.right) && Kids(S2, u.left) !! Kids(S2, u.right)
  {
    assert Linked(t, root, N, S, k);
    var id := |t|;
    var l, r := t[k].left, t[k].right;
    var L, R := Kids(S, l), Kids(S, r);
    assert id !in L && id !in R;
    if k == prev {
      assert prev !in L && prev !in R;
      GrowKids(S, prev, if v < t[k].x then r else l);
    } else {
      GrowKids(S, prev, l);
      GrowKids(S, prev, r);
      if prev !in S[k] {
        assert prev !in L && prev !in R;
      }
    }
  }

  /** A node of the old tree still orders its subtrees, the new value included. */
  lemma AttachOrder(t: seq<BTNode>, root: int, N: set<int>, S: seq<set<int>>, v: int, prev: int,
                    t2: seq<BTNode>, k: int)
    requires SearchTree(t, root, N, S) && AttachPoint(t, root, N, S, v, prev) && Attached(t, t2, prev, v)
    requires k in N
    ensures OrderedAt(t2, Grow(S, prev), k, -1)
  {
    var S2 := Grow(S, prev);
    var id := |t|;
    assert Linked(t, root, N, S, k) && OrderedAt(t, S, k, -1);
    AttachSets(t, root, N, S, v, prev, t2, k);
    forall j | j in Kids(S2, t2[k].left)
      ensures 0 <= j < |t2| && t2[j].x < t2[k].x
    {
      if j != id {
        assert j in Kids(S, t[k].left);
      }
    }
    forall j | j in Kids(S2, t2[k].right)
      ensures 0 <= j < |t2| && t2[k].x < t2[j].x
    {
      if j != id {
        assert j in Kids(S, t[k].right);
      }
    }
  }

  /** The new leaf is linked below `prev` and is ordered trivially. */
  lemma AttachNew(t: seq<BTNode>, root: int, N: set<int>, S: seq<set<int>>, v: int, prev: int, t2: seq<BTNode>)
    requires Shape(t, root, N, S) && AttachPoint(t, root, N, S, v, prev) && Attached(t, t2, prev, v)
    ensures var id := |t|; var S2 := Grow(S, prev);
      S2[id] <= N + {id} && Linked(t2, if prev == -1 then id else root, N + {id}, S2, id) &&
      OrderedAt(t2, S2, id, -1)
  {
    if prev != -1 {
      assert Linked(t, root, N, S, prev);
    }
  }

  /** The values after hanging the leaf: one more, `v`. */
  lemma AttachValues(t: seq<BTNode>, N: set<int>, v: int, prev: int, t2: seq<BTNode>)
    requires Attached(t, t2, prev, v) && forall k :: k in N ==> 0 <= k < |t|
    ensures Values(t2, N + {|t|}) == Values(t, N) + {v}
  {
    var id := |t|;
    forall w | w in Values(t2, N + {id})
      ensures w in Values(t, N) + {v}
    {
      var k :| k in N + {id} && 0 <= k < |t2| && t2[k].x == w;
    }
    forall w | w in Values(t, N) + {v}
      ensures w in Values(t2, N + {id})
    {
      if w != v {
        var k :| k in N && 0 <= k < |t| && t[k].x == w;
        assert t2[k].x == w;
      } else {
        assert t2[id].x == v;
      }
    }
  }

  /**
   * Hanging the leaf where `Locate` stopped keeps a search tree, now with one
   * node and one value more.
   */
  lemma AttachLeaf(t: seq<BTNode>, root: int, N: set<int>, S: seq<set<int>>, v: int, prev: int, t2: seq<BTNode>)
    requires SearchTree(t, root, N, S) && AttachPoint(t, root, N, S, v, prev) && Attached(t, t2, prev, v)
    ensures SearchTree(t2, if prev == -1 then |t| else root, N + {|t|}, Grow(S, prev))
    ensures Values(t2, N + {|t|}) == Values(t, N) + {v}
  {
    var id := |t|;
    var root2 := if prev == -1 then id else root;
    var N2 := N + {id};
    var S2 := Grow(S, prev);
    forall k | k in N2
      ensures 0 <= k < |t2| && S2[k] <= N2 && Linked(t2, root2, N2, S2, k) && OrderedAt(t2, S2, k, -1)
    {
      if k == id {
        AttachNew(t, root, N, S, v, prev, t2);
      } else {
        AttachLinks(t, root, N, S, v, prev, t2, k);
        AttachSets(t, root, N, S, v, prev, t2, k);
        AttachOrder(t, root, N, S, v, prev, t2, k);
      }
    }
    if prev != -1 {
      assert prev in S[root];
    }
    AttachValues(t, N, v, prev, t2);
  }

  // ---------------------------------------------------------------------------
  // Splicing out a node with at most one child

  /** The subtree sets once node `u` is gone. */
  ghost function Shrink(S: seq<set<int>>, u: int): (S2: seq<set<int>>)
    ensures |S2| == |S| && forall k :: 0 <= k < |S| ==> S2[k] == S[k] - {u}
  {
    seq(|S|, k requires 0 <= k < |S| => S[k] - {u})
  }

  /** The child `splice` moves up: the left one if there is one, else the right one (maybe null). */
  function Spliced(n: BTNode): int
  {
    if n.left != -1 then n.left else n.right
  }

  /**
   * The arena after `splice(u)`: u's child takes u's place below u's parent
   * (or at the root) and points back to that parent; nothing else changes.
   */
  ghost predicate SplicedOut(t: seq<BTNode>, root: int, u: int, t2: seq<BTNode>, root2: int)
    requires 0 <= u < |t|
  {
    var c := Spliced(t[u]);
    var p := t[u].parent;
    |t2| == |t| &&
    root2 == (if u == root then c else root) &&
    (c != -1 ==> 0 <= c < |t| && t2[c] == t[c].(parent := p)) &&
    (p != -1 ==> 0 <= p < |t| && t2[p] == if t[p].left == u then t[p].(left := c) else t[p].(right := c)) &&
    (forall k :: 0 <= k < |t| && k != c && k != p ==> t2[k] == t[k])
  }

  /** The ids around `u` that `splice` touches are distinct from each other. */
  lemma SpliceApart(t: seq<BTNode>, root: int, N: set<int>, S: seq<set<int>>, u: int)
    requires Shape(t, root, N, S) && u in N && (t[u].left == -1 || t[u].right == -1)
    ensures var c, p := Spliced(t[u]), t[u].parent;
      S[u] == {u} + Kids(S, c) && u !in Kids(S, c) &&
      (c != -1 ==> c in N && 0 <= c < |t| && t[c].parent == u && Kids(S, c) <= S[u]) &&
      (p != -1 ==> p in N && 0 <= p < |t| && u in S[p] && p !in S[u] && c != p) &&
      (p == -1 <==> u == root)
  {
    assert Linked(t, root, N, S, u);
    var p := t[u].parent;
    if p != -1 {
      assert Linked(t, root, N, S, p);
    }
  }

  /** The child pointers of a node other than `u` still point at live nodes that point back. */
  lemma SpliceChildren(t: seq<BTNode>, root: int, N: set<int>, S: seq<set<int>>, u: int,
                       t2: seq<BTNode>, root2: int, k: int)
    requires Shape(t, root, N, S) && u in N && (t[u].left == -1 || t[u].right == -1)
    requires SplicedOut(t, root, u, t2, root2)
    requires k in N && k != u
    ensures Child(t2, N - {u}, k, t2[k].left) && Child(t2, N - {u}, k, t2[k].right)
  {
    SpliceApart(t, root, N, S, u);
    var c, p := Spliced(t[u]), t[u].parent;
    assert Linked(t, root, N, S, k);
    var l, r := t[k].left, t[k].right;
    if k == p {
      var o := if t[p].left == u then r else l;
      assert o != u;
      if o != -1 {
        assert Linked(t, root, N, S, o);
        assert o != c;
      }
    } else {
      if l != -1 {
        assert Linked(t, root, N, S, l);
        assert l != c && l != u;
      }
      if r != -1 {
        assert Linked(t, root, N, S, r);
        assert r != c && r != u;
      }
      if k == c {
        assert l != -1 ==> l in S[k];
        assert r != -1 ==> r in S[k];
      }
    }
  }

  /** The parent pointer of a node other than `u` leads to a live node that points back, or marks the root. */
  lemma SpliceParent(t: seq<BTNode>, root: int, N: set<int>, S: seq<set<int>>, u: int,
                     t2: seq<BTNode>, root2: int, k: int)
    requires Shape(t, root, N, S) && u in N && (t[u].left == -1 || t[u].right == -1)
    requires SplicedOut(t, root, u, t2, root2)
    requires k in N && k != u
    ensures var q := t2[k].parent;
      (q == -1 <==> k == root2) &&
      (q != -1 ==> q in N - {u} && 0 <= q < |t2| && (t2[q].left == k || t2[q].right == k))
  {
    SpliceApart(t, root, N, S, u);
    var c, p := Spliced(t[u]), t[u].parent;
    assert Linked(t, root, N, S, k) && Linked(t, root, N, S, u);
    var q := t[k].parent;
    if k != c && q != -1 {
      assert Linked(t, root, N, S, q);
      assert q != u;
    }
  }

  /** Removing `u` from every subtree set, seen through a pointer. */
  lemma ShrinkKids(S: seq<set<int>>, u: int, c: int)
    ensures Kids(Shrink(S, u), c) == Kids(S, c) - {u}
  {
  }

  /** A node other than `u` loses `u` from its subtree and nothing else. */
  lemma SpliceSets(t: seq<BTNode>, root: int, N: set<int>, S: seq<set<int>>, u: int,
                   t2: seq<BTNode>, root2: int, k: int)
    requires Shape(t, root, N, S) && u in N && (t[u].left == -1 || t[u].right == -1)
    requires SplicedOut(t, root, u, t2, root2)
    requires k in N && k != u
    ensures var S2 := Shrink(S, u); var n := t2[k];
      S2[k] <= N - {u} &&
      S2[k] == {k} + Kids(S2, n.left) + Kids(S2, n.right) &&
      k !in Kids(S2, n.left) && k !in Kids(S2, n.right) && Kids(S2, n.left) !! Kids(S2, n.right)
  {
    SpliceApart(t, root, N, S, u);
    assert Linked(t, root, N, S, k) && Linked(t, root, N, S, u);
    var c, p := Spliced(t[u]), t[u].parent;
    var S2 := Shrink(S, u);
    var l, r := t2[k].left, t2[k].right;
    var l0, r0 := t[k].left, t[k].right;
    ShrinkKids(S, u, l);
    ShrinkKids(S, u, r);
    if k == p {
      ShrinkKids(S, u, c);
      assert Kids(S2, c) == Kids(S, c);
      if l0 == u {
        assert l == c && r == r0 && u !in Kids(S, r0);
        assert S2[k] == {k} + Kids(S, c) + Kids(S, r0);
      } else {
        assert r == c && l == l0 && u !in Kids(S, l0);
        assert S2[k] == {k} + Kids(S, l0) + Kids(S, c);
      }
    } else {
      assert l == l0 && r == r0;
    }
  }

  /** A node other than `u` still orders its subtrees after the splice. */
  lemma SpliceOrder(t: seq<BTNode>, root: int, N: set<int>, S: seq<set<int>>, u: int,
                    t2: seq<BTNode>, root2: int, k: int)
    requires Shape(t, root, N, S) && u in N && (t[u].left == -1 || t[u].right == -1)
    requires SplicedOut(t, root, u, t2, root2)
    requires k in N && k != u && OrderedAt(t, S, k, u)
    ensures OrderedAt(t2, Shrink(S, u), k, -1)
  {
    SpliceApart(t, root, N, S, u);
    SpliceSets(t, root, N, S, u, t2, root2, k);
    assert Linked(t, root, N, S, k);
    var S2 := Shrink(S, u);
    var c, p := Spliced(t[u]), t[u].parent;
    forall j | j in Kids(S2, t2[k].left)
      ensures 0 <= j < |t2| && t2[j].x < t2[k].x
    {
      assert j in Kids(S, t[k].left) && j != u;
    }
    forall j | j in Kids(S2, t2[k].right)
      ensures 0 <= j < |t2| && t2[k].x < t2[j].x
    {
      assert j in Kids(S, t[k].right) && j != u;
    }
  }

  /**
   * `splice` (BinarySearchTree.cpp:200-225, repeated in Treap.cpp:239-264):
   * unlink `u`, which has at most one child, by moving that child into its place.
   */
  method Splice(t: seq<BTNode>, root: int, ghost N: set<int>, ghost S: seq<set<int>>, u: int)
    returns (t2: seq<BTNode>, root2: int)
    requires Shape(t, root, N, S) && u in N && (t[u].left == -1 || t[u].right == -1)
    ensures SplicedOut(t, root, u, t2, root2)
    ensures Shape(t2, root2, N - {u}, Shrink(S, u))
    ensures OrderedBut(t, N, S, u) ==> SearchTree(t2, root2, N - {u}, Shrink(S, u))
  {
    SpliceApart(t, root, N, S, u);
    var c := Spliced(t[u]);
    var p := -1;
    t2 := t;
    if u == root {
      root2 := c;
    } else {
      root2 := root;
      p := t[u].parent;
      if t[p].left == u {
        t2 := t2[p := t2[p].(left := c)];
      } else {
        t2 := t2[p := t2[p].(right := c)];
      }
    }
    if c != -1 {
      t2 := t2[c := t2[c].(parent := p)];
    }
    SpliceShape(t, root, N, S, u, t2, root2);
  }

  /** The splice leaves a tree of the remaining nodes, ordered if the old one was apart from `u`. */
  lemma SpliceShape(t: seq<BTNode>, root: int, N: set<int>, S: seq<set<int>>, u: int, t2: seq<BTNode>, root2: int)
    requires Shape(t, root, N, S) && u in N && (t[u].left == -1 || t[u].right == -1)
    requires SplicedOut(t, root, u, t2, root2)
    ensures Shape(t2, root2, N - {u}, Shrink(S, u))
    ensures OrderedBut(t, N, S, u) ==> SearchTree(t2, root2, N - {u}, Shrink(S, u))
  {
    SpliceApart(t, root, N, S, u);
    var S2 := Shrink(S, u);
    var N2 := N - {u};
    forall k | k in N2
      ensures 0 <= k < |t2| && S2[k] <= N2 && Linked(t2, root2, N2, S2, k)
    {
      SpliceChildren(t, root, N, S, u, t2, root2, k);
      SpliceParent(t, root, N, S, u, t2, root2, k);
      SpliceSets(t, root, N, S, u, t2, root2, k);
    }
    if u != root {
      assert S2[root] == N2;
    }
    if OrderedBut(t, N, S, u) {
      forall k | k in N2 && 0 <= k < |t2|
        ensures OrderedAt(t2, S2, k, -1)
      {
        SpliceOrder(t, root, N, S, u, t2, root2, k);
      }
    }
  }

  // ---------------------------------------------------------------------------
  // Rotations (the treap's rebalancing steps)

  /** `SubClosed` as an implication, for use where membership is what is in question. */
  lemma SubClosedIf(t: seq<BTNode>, root: int, N: set<int>, S: seq<set<int>>, k: int, j: int)
    requires Shape(t, root, N, S) && k in N
    ensures j in S[k] ==> j in N && S[j] <= S[k]
  {
    if j in S[k] {
      SubClosed(t, root, N, S, k, j);
    }
  }

  /**
   * Node `k` is ordered in the new arena when its new subtrees lie within sets
   * `L` and `R` that sat on the correct sides of its value before, values unchanged.
   */
  lemma OrderedFrom(t: seq<BTNode>, S: seq<set<int>>, k: int, t2: seq<BTNode>, S2: seq<set<int>>,
                    L: set<int>, R: set<int>)
    requires 0 <= k < |t| == |S| == |t2| == |S2|
    requires forall j :: 0 <= j < |t| ==> t2[j].x == t[j].x
    requires Kids(S2, t2[k].left) <= L && Kids(S2, t2[k].right) <= R
    requires forall j :: j in L ==> 0 <= j < |t| && t[j].x < t[k].x
    requires forall j :: j in R ==> 0 <= j < |t| && t[k].x < t[j].x
    ensures OrderedAt(t2, S2, k, -1)
  {
  }

  /** Rewiring links without touching values keeps the stored values. */
  lemma SameValues(t: seq<BTNode>, t2: seq<BTNode>, N: set<int>)
    requires |t| == |t2| && forall k :: 0 <= k < |t| ==> t2[k].x == t[k].x
    ensures Values(t2, N) == Values(t, N)
  {
    forall w | w in Values(t2, N) ensures w in Values(t, N)
    {
      var k :| k in N && 0 <= k < |t2| && t2[k].x == w;
    }
    forall w | w in Values(t, N) ensures w in Values(t2, N)
    {
      var k :| k in N && 0 <= k < |t| && t[k].x == w;
      assert t2[k].x == w;
    }
  }

  // ---------------------------------------------------------------------------
  // Removal support

  /**
   * The descent of `remove` (BinarySearchTree.cpp:122-132, repeated in
   * Treap.cpp:195-205): the node holding `v`, or null when there is none.
   */
  method Lookup(t: seq<BTNode>, root: int, ghost N: set<int>, ghost S: seq<set<int>>, v: int)
    returns (cur: int)
    requires SearchTree(t, root, N, S)
    ensures cur == -1 <==> v !in Values(t, N)
    ensures cur != -1 ==> cur in N && 0 <= cur < |t| && t[cur].x == v
  {
    cur := root;
    while cur != -1
      invariant cur == -1 || cur in N
      invariant forall k :: k in N && k !in Kids(S, cur) ==> t[k].x != v
      decreases Kids(S, cur)
    {
      assert Linked(t, root, N, S, cur) && OrderedAt(t, S, cur, -1);
      if v == t[cur].x {
        break;
      } else if v < t[cur].x {
        cur := t[cur].left;
      } else {
        cur := t[cur].right;
      }
    }
  }

  /** Nodes with pairwise distinct values hold as many values as there are nodes (those below `n` first). */
  lemma {:induction false} DistinctCount(t: seq<BTNode>, N: set<int>, n: nat)
    requires n <= |t| && forall k :: k in N ==> 0 <= k < |t|
    requires forall j, k :: j in N && k in N && j != k ==> t[j].x != t[k].x
    ensures var M := set k | k in N && k < n; |Values(t, M)| == |M|
    ensures n == |t| ==> |Values(t, N)| == |N|
  {
    var M := set k | k in N && k < n;
    if n > 0 {
      DistinctCount(t, N, n - 1);
      var M0 := set k | k in N && k < n - 1;
      if n - 1 in N {
        assert M == M0 + {n - 1};
        ValuesAddOne(t, M0, n - 1);
      } else {
        assert M == M0;
      }
    } else {
      assert M == {};
    }
    if n == |t| {
      assert M == N;
    }
  }

  /** Adding a node whose value no other node holds adds that value to the stored ones. */
  lemma ValuesAddOne(t: seq<BTNode>, M: set<int>, m: int)
    requires 0 <= m < |t| && m !in M && forall k :: k in M ==> 0 <= k < |t| && t[k].x != t[m].x
    ensures Values(t, M + {m}) == Values(t, M) + {t[m].x} && t[m].x !in Values(t, M)
  {
  }

  /** A search tree holds as many values as it has nodes. */
  lemma SizeIsCount(t: seq<BTNode>, root: int, N: set<int>, S: seq<set<int>>)
    requires SearchTree(t, root, N, S)
    ensures |Values(t, N)| == |N|
  {
    forall j, k | j in N && k in N && j != k
      ensures t[j].x != t[k].x
    {
      Distinct(t, root, N, S, j, k);
    }
    DistinctCount(t, N, |t|);
  }

  /** Dropping a node from a search tree drops exactly its value. */
  lemma ValuesMinus(t: seq<BTNode>, root: int, N: set<int>, S: seq<set<int>>, u: int)
    requires SearchTree(t, root, N, S) && u in N
    ensures Values(t, N - {u}) == Values(t, N) - {t[u].x}
  {
    forall w | w in Values(t, N - {u})
      ensures w != t[u].x
    {
      var k :| k in N - {u} && 0 <= k < |t| && t[k].x == w;
      Distinct(t, root, N, S, k, u);
    }
  }

  /**
   * The two-child case of `remove` (BinarySearchTree.cpp:146-148): copying the
   * smallest value `m` of the right subtree into node `c` keeps the links and
   * the order everywhere except at `m`, which is then spliced out.
   */
  lemma CopyUp(t: seq<BTNode>, root: int, N: set<int>, S: seq<set<int>>, c: int, m: int, t2: seq<BTNode>)
    requires SearchTree(t, root, N, S) && c in N
    requires m in Kids(S, t[c].right) && 0 <= m < |t|
    requires forall j :: j in Kids(S, t[c].right) && 0 <= j < |t| ==> t[m].x <= t[j].x
    requires t2 == t[c := t[c].(x := t[m].x)]
    ensures Shape(t2, root, N, S) && OrderedBut(t2, N, S, m)
    ensures Values(t2, N - {m}) == Values(t, N) - {t[c].x}
  {
    forall k | k in N
      ensures Linked(t2, root, N, S, k)
    {
      assert Linked(t, root, N, S, k);
    }
    forall k | k in N && k != m && 0 <= k < |t|
      ensures OrderedAt(t2, S, k, m)
    {
      CopyUpOrder(t, root, N, S, c, m, t2, k);
    }
    CopyUpValues(t, root, N, S, c, m, t2);
  }

  /** The values after the copy in `CopyUp`, leaving out `m`: all but the one removed. */
  lemma CopyUpValues(t: seq<BTNode>, root: int, N: set<int>, S: seq<set<int>>, c: int, m: int, t2: seq<BTNode>)
    requires SearchTree(t, root, N, S) && c in N
    requires m in Kids(S, t[c].right) && 0 <= m < |t|
    requires t2 == t[c := t[c].(x := t[m].x)]
    ensures Values(t2, N - {m}) == Values(t, N) - {t[c].x}
  {
    assert Linked(t, root, N, S, c);
    SubClosed(t, root, N, S, c, m);
    forall w | w in Values(t2, N - {m})
      ensures w in Values(t, N) - {t[c].x}
    {
      var k :| k in N - {m} && 0 <= k < |t2| && t2[k].x == w;
      if k != c {
        Distinct(t, root, N, S, k, c);
      } else {
        Distinct(t, root, N, S, m, c);
      }
    }
    forall w | w in Values(t, N) - {t[c].x}
      ensures w in Values(t2, N - {m})
    {
      var k :| k in N && 0 <= k < |t| && t[k].x == w;
      if k == m {
        assert t2[c].x == w;
      } else {
        assert t2[k].x == w;
      }
    }
  }

  /** One node's order after the copy in `CopyUp`. */
  lemma CopyUpOrder(t: seq<BTNode>, root: int, N: set<int>, S: seq<set<int>>, c: int, m: int, t2: seq<BTNode>, k: int)
    requires SearchTree(t, root, N, S) && c in N
    requires m in Kids(S, t[c].right) && 0 <= m < |t|
    requires forall j :: j in Kids(S, t[c].right) && 0 <= j < |t| ==> t[m].x <= t[j].x
    requires t2 == t[c := t[c].(x := t[m].x)]
    requires k in N && k != m
    ensures OrderedAt(t2, S, k, m)
  {
    assert Linked(t, root, N, S, c) && OrderedAt(t, S, c, -1);
    assert Linked(t, root, N, S, k) && OrderedAt(t, S, k, -1);
    if k == c {
      forall j | j in Kids(S, t[c].right) && j != m
        ensures t[m].x < t[j].x
      {
        SubClosed(t, root, N, S, c, j);
        Distinct(t, root, N, S, j, m);
      }
    } else {
      forall j | j in Kids(S, t[k].left) && j == c
        ensures t[m].x < t[k].x
      {
        SubClosed(t, root, N, S, t[k].left, c);
      }
      forall j | j in Kids(S, t[k].right) && j == c
        ensures t[k].x < t[m].x
      {
        SubClosed(t, root, N, S, t[k].right, c);
      }
    }
  }

  /** The full order also holds with any one node left out of it. */
  lemma OrderedLeaving(t: seq<BTNode>, root: int, N: set<int>, S: seq<set<int>>, e: int)
    requires SearchTree(t, root, N, S)
    ensures OrderedBut(t, N, S, e)
  {
    forall k | k in N && k != e && 0 <= k < |t|
      ensures OrderedAt(t, S, k, e)
    {
      assert OrderedAt(t, S, k, -1) && Linked(t, root, N, S, k);
    }
  }
}
