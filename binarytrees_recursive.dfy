/**
 * The traversals of src/binarytrees/RecursiveBinaryTree.cpp over the node
 * arena of binary_trees.dfy: `size` and `height` recurse on the two child
 * pointers, `depth` walks the parent pointers up to the root.
 */
module BinaryTreesRecursive {
  import opened BinaryTrees

  /** 2 to the power `h`. */
  function Pow2(h: nat): (r: nat)
    ensures r >= 1
  {
    if h == 0 then 1 else 2 * Pow2(h - 1)
  }

  /** Powers of two grow with the exponent. */
  lemma {:induction false} Pow2Grows(a: nat, b: nat)
    requires a <= b
    ensures Pow2(a) <= Pow2(b)
    decreases b
  {
    if a < b {
      Pow2Grows(a, b - 1);
    }
  }

  /** Two subtrees within their height bounds give a node within its own. */
  lemma HeightBound(hl: nat, hr: nat, kl: nat, kr: nat)
    requires hl <= kl < Pow2(hl) && hr <= kr < Pow2(hr)
    ensures var h := 1 + (if hl < hr then hr else hl); h <= 1 + kl + kr < Pow2(h)
  {
    var m := if hl < hr then hr else hl;
    Pow2Grows(hl, m);
    Pow2Grows(hr, m);
  }

  /** A node with no children. */
  predicate IsLeaf(t: seq<BTNode>, k: int)
  {
    0 <= k < |t| && t[k].left == -1 && t[k].right == -1
  }

  /** The nodes on the way down from `u` to `k`, both ends included (empty unless `k` is under `u`). */
  ghost function Path(S: seq<set<int>>, u: int, k: int): set<int>
  {
    set a | a in Kids(S, u) && 0 <= a < |S| && k in S[a]
  }

  /** The nodes strictly above `u`: those whose subtree holds it. */
  ghost function Ancestors(N: set<int>, S: seq<set<int>>, u: int): set<int>
  {
    set a | a in N && 0 <= a < |S| && a != u && u in S[a]
  }

  /** A child subtree is strictly smaller than its parent's, which is what the recursions descend on. */
  lemma ChildSmaller(t: seq<BTNode>, root: int, N: set<int>, S: seq<set<int>>, u: int)
    requires Shape(t, root, N, S) && u in N
    ensures Kids(S, t[u].left) < Kids(S, u) && Kids(S, t[u].right) < Kids(S, u)
  {
    assert Linked(t, root, N, S, u);
  }

  /**
   * `size(u)` (RecursiveBinaryTree.cpp:48-54): nothing under null, else one
   * plus the sizes of the two subtrees; that is the number of nodes under `u`.
   */
  function Size(t: seq<BTNode>, ghost root: int, ghost N: set<int>, ghost S: seq<set<int>>, u: int): (r: nat)
    requires Shape(t, root, N, S) && (u == -1 || u in N)
    ensures r == |Kids(S, u)|
    decreases Kids(S, u)
  {
    if u == -1 then 0
    else
      ChildSmaller(t, root, N, S, u);
      SubtreeCount(t, root, N, S, u);
      assert Linked(t, root, N, S, u);
      1 + Size(t, root, N, S, t[u].left) + Size(t, root, N, S, t[u].right)
  }

  /**
   * The recursive size of the root is the number of stored values, which is
   * what the breadth-first count of the search tree's `size` returns.
   */
  lemma SizeOfRoot(t: seq<BTNode>, root: int, N: set<int>, S: seq<set<int>>)
    requires SearchTree(t, root, N, S)
    ensures Size(t, root, N, S, root) == |N| == |Values(t, N)|
  {
    SizeIsCount(t, root, N, S);
  }

  /**
   * `height(u)` (RecursiveBinaryTree.cpp:33-39): nothing under null, else one
   * plus the larger height of the two subtrees. A subtree of height `h` has
   * at least `h` and fewer than `2^h` nodes.
   */
  function Height(t: seq<BTNode>, ghost root: int, ghost N: set<int>, ghost S: seq<set<int>>, u: int): (h: nat)
    requires Shape(t, root, N, S) && (u == -1 || u in N)
    ensures h <= |Kids(S, u)| < Pow2(h)
    decreases Kids(S, u)
  {
    if u == -1 then 0
    else
      ChildSmaller(t, root, N, S, u);
      SubtreeCount(t, root, N, S, u);
      assert Linked(t, root, N, S, u);
      var hl := Height(t, root, N, S, t[u].left);
      var hr := Height(t, root, N, S, t[u].right);
      HeightBound(hl, hr, |Kids(S, t[u].left)|, |Kids(S, t[u].right)|);
      1 + (if hl < hr then hr else hl)
  }

  /** The way down from a node to itself is that node alone. */
  lemma PathHere(t: seq<BTNode>, root: int, N: set<int>, S: seq<set<int>>, u: int)
    requires Shape(t, root, N, S) && u in N
    ensures Path(S, u, u) == {u}
  {
    assert Linked(t, root, N, S, u);
    forall a | a in Path(S, u, u)
      ensures a == u
    {
      if a != u {
        var c := if a in Kids(S, t[u].left) then t[u].left else t[u].right;
        SubClosed(t, root, N, S, c, a);
      }
    }
  }

  /** The way down from `u` to a node below its child `c` passes `u` and then goes down from `c`. */
  lemma PathDown(t: seq<BTNode>, root: int, N: set<int>, S: seq<set<int>>, u: int, c: int, k: int)
    requires Shape(t, root, N, S) && u in N && (c == t[u].left || c == t[u].right) && c != -1 && k in Kids(S, c)
    ensures Path(S, u, k) == {u} + Path(S, c, k) && u !in Path(S, c, k)
  {
    assert Linked(t, root, N, S, u);
    var o := if c == t[u].left then t[u].right else t[u].left;
    forall a | a in Path(S, u, k) && a != u
      ensures a in Path(S, c, k)
    {
      if a in Kids(S, o) {
        SubClosed(t, root, N, S, o, a);
      }
    }
  }

  /**
   * The height is, as RecursiveBinaryTree.cpp:27-31 puts it, the largest
   * number of nodes on the way down from `u` to a leaf: no way down is
   * longer, and some way down to a leaf is that long.
   */
  lemma {:induction false} HeightIsLongestPath(t: seq<BTNode>, root: int, N: set<int>, S: seq<set<int>>, u: int)
    requires Shape(t, root, N, S) && u in N
    ensures forall k :: k in S[u] ==> |Path(S, u, k)| <= Height(t, root, N, S, u)
    ensures exists k :: k in S[u] && IsLeaf(t, k) && |Path(S, u, k)| == Height(t, root, N, S, u)
    decreases S[u]
  {
    assert Linked(t, root, N, S, u);
    var l, r := t[u].left, t[u].right;
    var h := Height(t, root, N, S, u);
    PathHere(t, root, N, S, u);
    forall k | k in S[u]
      ensures |Path(S, u, k)| <= h
    {
      if k != u {
        var c := if k in Kids(S, l) then l else r;
        HeightIsLongestPath(t, root, N, S, c);
        PathDown(t, root, N, S, u, c, k);
      }
    }
    if l == -1 && r == -1 {
      assert IsLeaf(t, u) && |Path(S, u, u)| == h;
    } else {
      var c := if l == -1 || (r != -1 && Height(t, root, N, S, l) < Height(t, root, N, S, r)) then r else l;
      HeightIsLongestPath(t, root, N, S, c);
      var k :| k in S[c] && IsLeaf(t, k) && |Path(S, c, k)| == Height(t, root, N, S, c);
      PathDown(t, root, N, S, u, c, k);
      assert k in S[u] && |Path(S, u, k)| == h;
    }
  }

  /** The root has nothing above it. */
  lemma RootAncestors(t: seq<BTNode>, root: int, N: set<int>, S: seq<set<int>>)
    requires Shape(t, root, N, S) && root != -1
    ensures Ancestors(N, S, root) == {}
  {
    forall a | a in Ancestors(N, S, root)
      ensures false
    {
      RootOnTop(t, root, N, S, a);
    }
  }

  /** Above a node other than the root lie its parent and what lies above the parent. */
  lemma AncestorsStep(t: seq<BTNode>, root: int, N: set<int>, S: seq<set<int>>, c: int)
    requires Shape(t, root, N, S) && c in N && c != root
    ensures t[c].parent in N
    ensures Ancestors(N, S, c) == Ancestors(N, S, t[c].parent) + {t[c].parent}
    ensures |Ancestors(N, S, c)| == |Ancestors(N, S, t[c].parent)| + 1
  {
    assert Linked(t, root, N, S, c);
    var p := t[c].parent;
    assert Linked(t, root, N, S, p);
    assert c in S[p] && p !in S[c];
    forall a | a in Ancestors(N, S, c) && a != p
      ensures a in Ancestors(N, S, p)
    {
      ParentInside(t, root, N, S, a, c);
    }
    forall a | a in Ancestors(N, S, p)
      ensures a in Ancestors(N, S, c)
    {
      SubClosed(t, root, N, S, a, p);
    }
  }

  /**
   * `depth(u)` (RecursiveBinaryTree.cpp:16-24): climb parent pointers until
   * the root, counting the steps; that is the number of nodes above `u`.
   */
  method Depth(t: seq<BTNode>, root: int, ghost N: set<int>, ghost S: seq<set<int>>, u: int) returns (d: int)
    requires Shape(t, root, N, S) && u in N
    ensures d == |Ancestors(N, S, u)|
  {
    d := 0;
    var cur := u;
    while cur != root
      invariant cur in N && d + |Ancestors(N, S, cur)| == |Ancestors(N, S, u)|
      decreases |Ancestors(N, S, cur)|
    {
      AncestorsStep(t, root, N, S, cur);
      cur := t[cur].parent;
      d := d + 1;
    }
    RootAncestors(t, root, N, S);
  }
}
