/**
 * The rotations of the treap (src/binarytrees/Treap.cpp), on the arena of
 * binary_trees.dfy. Each is a method returning the rewired arena, with a
 * predicate saying which links changed and lemmas showing that the shape,
 * the values and the search-tree order survive.
 */
module TreapRotations {
  import opened BinaryTrees

  /**
   * The subtree sets after rotating left at `u` (right child `w`): `w` takes
   * over `u`'s whole subtree and `u` keeps its left subtree and `w`'s old left one.
   */
  ghost function LeftSets(t: seq<BTNode>, S: seq<set<int>>, u: int): (S2: seq<set<int>>)
    ensures |S2| == |S|
  {
    if 0 <= u < |t| == |S| && 0 <= t[u].right < |t| then
      var w := t[u].right;
      S[u := {u} + Kids(S, t[u].left) + Kids(S, t[w].left)][w := S[u]]
    else S
  }

  /**
   * The arena after `rotateLeft(u)` (Treap.cpp:64-85): the right child `w`
   * moves into `u`'s place below `u`'s parent (or at the root), `u` becomes
   * `w`'s left child and `w`'s old left subtree becomes `u`'s right one.
   */
  ghost predicate RotatedLeft(t: seq<BTNode>, root: int, u: int, t2: seq<BTNode>, root2: int)
    requires 0 <= u < |t|
  {
    0 <= t[u].right < |t| &&
    var w := t[u].right;
    var g, b := t[u].parent, t[w].left;
    |t2| == |t| &&
    root2 == (if u == root then w else root) &&
    t2[w] == t[w].(parent := g, left := u) &&
    t2[u] == t[u].(parent := w, right := b) &&
    (b != -1 ==> 0 <= b < |t| && t2[b] == t[b].(parent := u)) &&
    (g != -1 ==> 0 <= g < |t| && t2[g] == if t[g].left == u then t[g].(left := w) else t[g].(right := w)) &&
    (forall k :: 0 <= k < |t| && k != u && k != w && k != b && k != g ==> t2[k] == t[k])
  }

  /** The nodes a left rotation at `u` touches, and how their subtrees nest. */
  lemma LeftApart(t: seq<BTNode>, root: int, N: set<int>, S: seq<set<int>>, u: int)
    requires Shape(t, root, N, S) && u in N && t[u].right != -1
    ensures 0 <= t[u].right < |t|
    ensures var w := t[u].right;
      w in N && t[w].parent == u && w != u && w != root &&
      S[u] == {u} + Kids(S, t[u].left) + S[w] && u !in S[w] && Kids(S, t[u].left) !! S[w]
    ensures var w := t[u].right; var b := t[w].left;
      S[w] == {w} + Kids(S, b) + Kids(S, t[w].right) && w !in Kids(S, b) && w !in Kids(S, t[w].right) &&
      Kids(S, b) !! Kids(S, t[w].right) &&
      (b != -1 ==> b in N && 0 <= b < |t| && t[b].parent == w && b in S[w])
    ensures var g := t[u].parent;
      (g != -1 ==> g in N && 0 <= g < |t| && g !in S[u] && (t[g].left == u || t[g].right == u)) &&
      (g == -1 <==> u == root)
  {
    assert Linked(t, root, N, S, u);
    var w := t[u].right;
    assert Linked(t, root, N, S, w);
    if t[w].left != -1 {
      assert Linked(t, root, N, S, t[w].left);
    }
    var g := t[u].parent;
    if g != -1 {
      assert Linked(t, root, N, S, g);
    }
  }

  /** The child pointers after a left rotation still point at live nodes that point back. */
  lemma LeftChildren(t: seq<BTNode>, root: int, N: set<int>, S: seq<set<int>>, u: int,
                     t2: seq<BTNode>, root2: int, k: int)
    requires Shape(t, root, N, S) && u in N && t[u].right != -1
    requires RotatedLeft(t, root, u, t2, root2) && k in N
    ensures Child(t2, N, k, t2[k].left) && Child(t2, N, k, t2[k].right)
  {
    LeftApart(t, root, N, S, u);
    var w := t[u].right;
    var g, b := t[u].parent, t[w].left;
    assert Linked(t, root, N, S, k);
    var l, r := t[k].left, t[k].right;
    if l != -1 {
      assert Linked(t, root, N, S, l);
    }
    if r != -1 {
      assert Linked(t, root, N, S, r);
    }
    if k == u || k == w || k == b {
      SubClosed(t, root, N, S, u, k);
      assert l != -1 ==> l in S[k];
      assert r != -1 ==> r in S[k];
    }
  }

  /** The parent pointers after a left rotation lead to live nodes that point back, or mark the root. */
  lemma LeftParent(t: seq<BTNode>, root: int, N: set<int>, S: seq<set<int>>, u: int,
                   t2: seq<BTNode>, root2: int, k: int)
    requires Shape(t, root, N, S) && u in N && t[u].right != -1
    requires RotatedLeft(t, root, u, t2, root2) && k in N
    ensures var q := t2[k].parent;
      (q == -1 <==> k == root2) &&
      (q != -1 ==> q in N && 0 <= q < |t2| && (t2[q].left == k || t2[q].right == k))
  {
    LeftApart(t, root, N, S, u);
    var w := t[u].right;
    var g, b := t[u].parent, t[w].left;
    assert Linked(t, root, N, S, k);
    var q := t[k].parent;
    if q != -1 {
      assert Linked(t, root, N, S, q);
      if k == g {
        SubClosedIf(t, root, N, S, u, q);
        assert u in S[u] && w in S[u] && (b != -1 ==> b in S[u]);
      }
    }
  }

  /** Seen through a pointer, the subtree sets after a left rotation change only at `u` and `w`. */
  lemma LeftKids(t: seq<BTNode>, S: seq<set<int>>, u: int, c: int)
    requires 0 <= u < |t| == |S| && 0 <= t[u].right < |t|
    ensures c != u && c != t[u].right ==> Kids(LeftSets(t, S, u), c) == Kids(S, c)
    ensures c == t[u].right ==> Kids(LeftSets(t, S, u), c) == S[u]
  {
  }

  /** The subtree sets after a left rotation fit the new links. */
  lemma LeftSetsFit(t: seq<BTNode>, root: int, N: set<int>, S: seq<set<int>>, u: int,
                    t2: seq<BTNode>, root2: int, k: int)
    requires Shape(t, root, N, S) && u in N && t[u].right != -1
    requires RotatedLeft(t, root, u, t2, root2) && k in N
    ensures var S2 := LeftSets(t, S, u); var n := t2[k];
      S2[k] <= N &&
      S2[k] == {k} + Kids(S2, n.left) + Kids(S2, n.right) &&
      k !in Kids(S2, n.left) && k !in Kids(S2, n.right) && Kids(S2, n.left) !! Kids(S2, n.right)
  {
    LeftApart(t, root, N, S, u);
    var w := t[u].right;
    if k == u {
      LeftSetsAtU(t, root, N, S, u, t2, root2);
    } else if k == w {
      LeftSetsAtW(t, root, N, S, u, t2, root2);
    } else {
      assert Linked(t, root, N, S, k);
      LeftKids(t, S, u, k);
      LeftKids(t, S, u, t[k].left);
      LeftKids(t, S, u, t[k].right);
      LeftKids(t, S, u, t2[k].left);
      LeftKids(t, S, u, t2[k].right);
    }
  }

  /** After a left rotation `u` holds itself, its old left subtree and `w`'s old left subtree. */
  lemma LeftSetsAtU(t: seq<BTNode>, root: int, N: set<int>, S: seq<set<int>>, u: int,
                    t2: seq<BTNode>, root2: int)
    requires Shape(t, root, N, S) && u in N && t[u].right != -1
    requires RotatedLeft(t, root, u, t2, root2)
    ensures var S2 := LeftSets(t, S, u); var n := t2[u];
      S2[u] <= N &&
      S2[u] == {u} + Kids(S2, n.left) + Kids(S2, n.right) &&
      u !in Kids(S2, n.left) && u !in Kids(S2, n.right) && Kids(S2, n.left) !! Kids(S2, n.right)
  {
    LeftApart(t, root, N, S, u);
    assert Linked(t, root, N, S, u);
    var w := t[u].right;
    var l := t[u].left;
    if l != -1 {
      assert Linked(t, root, N, S, l);
    }
    LeftKids(t, S, u, l);
    LeftKids(t, S, u, t[w].left);
  }

  /** After a left rotation `w` holds what `u` held. */
  lemma LeftSetsAtW(t: seq<BTNode>, root: int, N: set<int>, S: seq<set<int>>, u: int,
                    t2: seq<BTNode>, root2: int)
    requires Shape(t, root, N, S) && u in N && t[u].right != -1
    requires RotatedLeft(t, root, u, t2, root2)
    ensures var w := t[u].right; var S2 := LeftSets(t, S, u); var n := t2[w];
      S2[w] <= N &&
      S2[w] == {w} + Kids(S2, n.left) + Kids(S2, n.right) &&
      w !in Kids(S2, n.left) && w !in Kids(S2, n.right) && Kids(S2, n.left) !! Kids(S2, n.right)
  {
    LeftApart(t, root, N, S, u);
    assert Linked(t, root, N, S, u);
    var w := t[u].right;
    assert Linked(t, root, N, S, w);
    var r := t[w].right;
    if r != -1 {
      assert Linked(t, root, N, S, r);
    }
    LeftKids(t, S, u, r);
  }

  /** A left rotation keeps the search-tree order at every node. */
  lemma LeftOrder(t: seq<BTNode>, root: int, N: set<int>, S: seq<set<int>>, u: int,
                  t2: seq<BTNode>, root2: int, k: int)
    requires SearchTree(t, root, N, S) && u in N && t[u].right != -1
    requires RotatedLeft(t, root, u, t2, root2) && k in N
    ensures OrderedAt(t2, LeftSets(t, S, u), k, -1)
  {
    LeftApart(t, root, N, S, u);
    var w := t[u].right;
    var S2 := LeftSets(t, S, u);
    assert forall j :: 0 <= j < |t| ==> t2[j].x == t[j].x;
    if k == w {
      LeftOrderAtW(t, root, N, S, u, t2, root2);
    } else if k == u {
      LeftOrderAtU(t, root, N, S, u, t2, root2);
    } else {
      assert OrderedAt(t, S, k, -1) && Linked(t, root, N, S, k);
      LeftKids(t, S, u, t2[k].left);
      LeftKids(t, S, u, t2[k].right);
      OrderedFrom(t, S, k, t2, S2, Kids(S, t[k].left), Kids(S, t[k].right));
    }
  }

  /** After a left rotation `w` has `u`'s side of the tree on its left. */
  lemma LeftOrderAtW(t: seq<BTNode>, root: int, N: set<int>, S: seq<set<int>>, u: int,
                     t2: seq<BTNode>, root2: int)
    requires SearchTree(t, root, N, S) && u in N && t[u].right != -1
    requires RotatedLeft(t, root, u, t2, root2)
    ensures OrderedAt(t2, LeftSets(t, S, u), t[u].right, -1)
  {
    LeftApart(t, root, N, S, u);
    var w := t[u].right;
    var b := t[w].left;
    assert forall j :: 0 <= j < |t| ==> t2[j].x == t[j].x;
    assert OrderedAt(t, S, u, -1) && OrderedAt(t, S, w, -1);
    LeftKids(t, S, u, u);
    LeftKids(t, S, u, t[w].right);
    OrderedFrom(t, S, w, t2, LeftSets(t, S, u), {u} + Kids(S, t[u].left) + Kids(S, b), Kids(S, t[w].right));
  }

  /** After a left rotation `u` has `w`'s old left subtree on its right. */
  lemma LeftOrderAtU(t: seq<BTNode>, root: int, N: set<int>, S: seq<set<int>>, u: int,
                     t2: seq<BTNode>, root2: int)
    requires SearchTree(t, root, N, S) && u in N && t[u].right != -1
    requires RotatedLeft(t, root, u, t2, root2)
    ensures OrderedAt(t2, LeftSets(t, S, u), u, -1)
  {
    LeftApart(t, root, N, S, u);
    var w := t[u].right;
    var b := t[w].left;
    assert forall j :: 0 <= j < |t| ==> t2[j].x == t[j].x;
    assert OrderedAt(t, S, u, -1);
    LeftKids(t, S, u, t[u].left);
    LeftKids(t, S, u, b);
    OrderedFrom(t, S, u, t2, LeftSets(t, S, u), Kids(S, t[u].left), Kids(S, b));
  }

  /**
   * A left rotation at `u` hands `u`'s whole subtree to the lifted child and
   * leaves `u` a strictly smaller one: the measures of the treap's loops.
   */
  lemma LeftSetsMove(t: seq<BTNode>, root: int, N: set<int>, S: seq<set<int>>, u: int)
    requires Shape(t, root, N, S) && u in N && 0 <= u < |t| && 0 <= t[u].right < |t|
    ensures LeftSets(t, S, u)[t[u].right] == S[u] && LeftSets(t, S, u)[u] < S[u]
    ensures u in S[u] && u !in S[t[u].right] && S[t[u].right] < S[u]
  {
    assert Linked(t, root, N, S, u);
    var w := t[u].right;
    assert Linked(t, root, N, S, w);
    assert w !in LeftSets(t, S, u)[u];
  }

  /**
   * `rotateLeft(u)` (Treap.cpp:64-85) on the arena: the result is the
   * rotated tree, with the same nodes and values, still a search tree.
   */
  method RotateLeft(t: seq<BTNode>, root: int, ghost N: set<int>, ghost S: seq<set<int>>, u: int)
    returns (t2: seq<BTNode>, root2: int)
    requires Shape(t, root, N, S) && u in N && t[u].right != -1
    ensures RotatedLeft(t, root, u, t2, root2)
    ensures Shape(t2, root2, N, LeftSets(t, S, u)) && Values(t2, N) == Values(t, N)
    ensures SearchTree(t, root, N, S) ==> SearchTree(t2, root2, N, LeftSets(t, S, u))
  {
    LeftApart(t, root, N, S, u);
    var w := t[u].right;
    t2 := t[w := t[w].(parent := t[u].parent)];
    var g := t2[w].parent;
    if g != -1 {
      if t2[g].left == u {
        t2 := t2[g := t2[g].(left := w)];
      } else {
        t2 := t2[g := t2[g].(right := w)];
      }
    }
    var b := t2[w].left;
    t2 := t2[u := t2[u].(right := b)];
    if b != -1 {
      t2 := t2[b := t2[b].(parent := u)];
    }
    t2 := t2[u := t2[u].(parent := w)];
    t2 := t2[w := t2[w].(left := u)];
    root2 := root;
    if u == root {
      root2 := w;
      t2 := t2[w := t2[w].(parent := -1)];
    }
    LeftShape(t, root, N, S, u, t2, root2);
  }

  /** A left rotation leaves a tree of the same nodes and values, ordered if the old one was. */
  lemma LeftShape(t: seq<BTNode>, root: int, N: set<int>, S: seq<set<int>>, u: int, t2: seq<BTNode>, root2: int)
    requires Shape(t, root, N, S) && u in N && t[u].right != -1
    requires RotatedLeft(t, root, u, t2, root2)
    ensures Shape(t2, root2, N, LeftSets(t, S, u)) && Values(t2, N) == Values(t, N)
    ensures SearchTree(t, root, N, S) ==> SearchTree(t2, root2, N, LeftSets(t, S, u))
  {
    LeftApart(t, root, N, S, u);
    var S2 := LeftSets(t, S, u);
    forall k | k in N
      ensures 0 <= k < |t2| && S2[k] <= N && Linked(t2, root2, N, S2, k)
    {
      LeftChildren(t, root, N, S, u, t2, root2, k);
      LeftParent(t, root, N, S, u, t2, root2, k);
      LeftSetsFit(t, root, N, S, u, t2, root2, k);
    }
    var w := t[u].right;
    if u != root {
      assert root != w && S2[root] == S[root];
    }
    SameValues(t, t2, N);
    if SearchTree(t, root, N, S) {
      forall k | k in N && 0 <= k < |t2|
        ensures OrderedAt(t2, S2, k, -1)
      {
        LeftOrder(t, root, N, S, u, t2, root2, k);
      }
    }
  }

  /**
   * The subtree sets after rotating right at `u` (left child `w`): `w` takes
   * over `u`'s whole subtree and `u` keeps its right subtree and `w`'s old right one.
   */
  ghost function RightSets(t: seq<BTNode>, S: seq<set<int>>, u: int): (S2: seq<set<int>>)
    ensures |S2| == |S|
  {
    if 0 <= u < |t| == |S| && 0 <= t[u].left < |t| then
      var w := t[u].left;
      S[u := {u} + Kids(S, t[u].right) + Kids(S, t[w].right)][w := S[u]]
    else S
  }

  /**
   * The arena after `rotateRight(u)` (Treap.cpp:105-126): the left child `w`
   * moves into `u`'s place below `u`'s parent (or at the root), `u` becomes
   * `w`'s right child and `w`'s old right subtree becomes `u`'s left one.
   */
  ghost predicate RotatedRight(t: seq<BTNode>, root: int, u: int, t2: seq<BTNode>, root2: int)
    requires 0 <= u < |t|
  {
    0 <= t[u].left < |t| &&
    var w := t[u].left;
    var g, b := t[u].parent, t[w].right;
    |t2| == |t| &&
    root2 == (if u == root then w else root) &&
    t2[w] == t[w].(parent := g, right := u) &&
    t2[u] == t[u].(parent := w, left := b) &&
    (b != -1 ==> 0 <= b < |t| && t2[b] == t[b].(parent := u)) &&
    (g != -1 ==> 0 <= g < |t| && t2[g] == if t[g].left == u then t[g].(left := w) else t[g].(right := w)) &&
    (forall k :: 0 <= k < |t| && k != u && k != w && k != b && k != g ==> t2[k] == t[k])
  }

  /** The nodes a right rotation at `u` touches, and how their subtrees nest. */
  lemma RightApart(t: seq<BTNode>, root: int, N: set<int>, S: seq<set<int>>, u: int)
    requires Shape(t, root, N, S) && u in N && t[u].left != -1
    ensures 0 <= t[u].left < |t|
    ensures var w := t[u].left;
      w in N && t[w].parent == u && w != u && w != root &&
      S[u] == {u} + Kids(S, t[u].right) + S[w] && u !in S[w] && Kids(S, t[u].right) !! S[w]
    ensures var w := t[u].left; var b := t[w].right;
      S[w] == {w} + Kids(S, b) + Kids(S, t[w].left) && w !in Kids(S, b) && w !in Kids(S, t[w].left) &&
      Kids(S, b) !! Kids(S, t[w].left) &&
      (b != -1 ==> b in N && 0 <= b < |t| && t[b].parent == w && b in S[w])
    ensures var g := t[u].parent;
      (g != -1 ==> g in N && 0 <= g < |t| && g !in S[u] && (t[g].right == u || t[g].left == u)) &&
      (g == -1 <==> u == root)
  {
    assert Linked(t, root, N, S, u);
    var w := t[u].left;
    assert Linked(t, root, N, S, w);
    if t[w].right != -1 {
      assert Linked(t, root, N, S, t[w].right);
    }
    var g := t[u].parent;
    if g != -1 {
      assert Linked(t, root, N, S, g);
    }
  }

  /** The child pointers after a right rotation still point at live nodes that point back. */
  lemma RightChildren(t: seq<BTNode>, root: int, N: set<int>, S: seq<set<int>>, u: int,
                     t2: seq<BTNode>, root2: int, k: int)
    requires Shape(t, root, N, S) && u in N && t[u].left != -1
    requires RotatedRight(t, root, u, t2, root2) && k in N
    ensures Child(t2, N, k, t2[k].right) && Child(t2, N, k, t2[k].left)
  {
    RightApart(t, root, N, S, u);
    var w := t[u].left;
    var g, b := t[u].parent, t[w].right;
    assert Linked(t, root, N, S, k);
    var l, r := t[k].right, t[k].left;
    if l != -1 {
      assert Linked(t, root, N, S, l);
    }
    if r != -1 {
      assert Linked(t, root, N, S, r);
    }
    if k == u || k == w || k == b {
      SubClosed(t, root, N, S, u, k);
      assert l != -1 ==> l in S[k];
      assert r != -1 ==> r in S[k];
    }
  }

  /** The parent pointers after a right rotation lead to live nodes that point back, or mark the root. */
  lemma RightParent(t: seq<BTNode>, root: int, N: set<int>, S: seq<set<int>>, u: int,
                   t2: seq<BTNode>, root2: int, k: int)
    requires Shape(t, root, N, S) && u in N && t[u].left != -1
    requires RotatedRight(t, root, u, t2, root2) && k in N
    ensures var q := t2[k].parent;
      (q == -1 <==> k == root2) &&
      (q != -1 ==> q in N && 0 <= q < |t2| && (t2[q].right == k || t2[q].left == k))
  {
    RightApart(t, root, N, S, u);
    var w := t[u].left;
    var g, b := t[u].parent, t[w].right;
    assert Linked(t, root, N, S, k);
    var q := t[k].parent;
    if q != -1 {
      assert Linked(t, root, N, S, q);
      if k == g {
        SubClosedIf(t, root, N, S, u, q);
        assert u in S[u] && w in S[u] && (b != -1 ==> b in S[u]);
      }
    }
  }

  /** Seen through a pointer, the subtree sets after a right rotation change only at `u` and `w`. */
  lemma RightKids(t: seq<BTNode>, S: seq<set<int>>, u: int, c: int)
    requires 0 <= u < |t| == |S| && 0 <= t[u].left < |t|
    ensures c != u && c != t[u].left ==> Kids(RightSets(t, S, u), c) == Kids(S, c)
    ensures c == t[u].left ==> Kids(RightSets(t, S, u), c) == S[u]
  {
  }

  /** The subtree sets after a right rotation fit the new links. */
  lemma RightSetsFit(t: seq<BTNode>, root: int, N: set<int>, S: seq<set<int>>, u: int,
                    t2: seq<BTNode>, root2: int, k: int)
    requires Shape(t, root, N, S) && u in N && t[u].left != -1
    requires RotatedRight(t, root, u, t2, root2) && k in N
    ensures var S2 := RightSets(t, S, u); var n := t2[k];
      S2[k] <= N &&
      S2[k] == {k} + Kids(S2, n.right) + Kids(S2, n.left) &&
      k !in Kids(S2, n.right) && k !in Kids(S2, n.left) && Kids(S2, n.right) !! Kids(S2, n.left)
  {
    RightApart(t, root, N, S, u);
    var w := t[u].left;
    if k == u {
      RightSetsAtU(t, root, N, S, u, t2, root2);
    } else if k == w {
      RightSetsAtW(t, root, N, S, u, t2, root2);
    } else {
      assert Linked(t, root, N, S, k);
      RightKids(t, S, u, k);
      RightKids(t, S, u, t[k].right);
      RightKids(t, S, u, t[k].left);
      RightKids(t, S, u, t2[k].right);
      RightKids(t, S, u, t2[k].left);
    }
  }

  /** After a right rotation `u` holds itself, its old right subtree and `w`'s old right subtree. */
  lemma RightSetsAtU(t: seq<BTNode>, root: int, N: set<int>, S: seq<set<int>>, u: int,
                    t2: seq<BTNode>, root2: int)
    requires Shape(t, root, N, S) && u in N && t[u].left != -1
    requires RotatedRight(t, root, u, t2, root2)
    ensures var S2 := RightSets(t, S, u); var n := t2[u];
      S2[u] <= N &&
      S2[u] == {u} + Kids(S2, n.right) + Kids(S2, n.left) &&
      u !in Kids(S2, n.right) && u !in Kids(S2, n.left) && Kids(S2, n.right) !! Kids(S2, n.left)
  {
    RightApart(t, root, N, S, u);
    assert Linked(t, root, N, S, u);
    var w := t[u].left;
    var l := t[u].right;
    if l != -1 {
      assert Linked(t, root, N, S, l);
    }
    RightKids(t, S, u, l);
    RightKids(t, S, u, t[w].right);
  }

  /** After a right rotation `w` holds what `u` held. */
  lemma RightSetsAtW(t: seq<BTNode>, root: int, N: set<int>, S: seq<set<int>>, u: int,
                    t2: seq<BTNode>, root2: int)
    requires Shape(t, root, N, S) && u in N && t[u].left != -1
    requires RotatedRight(t, root, u, t2, root2)
    ensures var w := t[u].left; var S2 := RightSets(t, S, u); var n := t2[w];
      S2[w] <= N &&
      S2[w] == {w} + Kids(S2, n.right) + Kids(S2, n.left) &&
      w !in Kids(S2, n.right) && w !in Kids(S2, n.left) && Kids(S2, n.right) !! Kids(S2, n.left)
  {
    RightApart(t, root, N, S, u);
    assert Linked(t, root, N, S, u);
    var w := t[u].left;
    assert Linked(t, root, N, S, w);
    var r := t[w].left;
    if r != -1 {
      assert Linked(t, root, N, S, r);
    }
    RightKids(t, S, u, r);
  }

  /** A right rotation keeps the search-tree order at every node. */
  lemma RightOrder(t: seq<BTNode>, root: int, N: set<int>, S: seq<set<int>>, u: int,
                  t2: seq<BTNode>, root2: int, k: int)
    requires SearchTree(t, root, N, S) && u in N && t[u].left != -1
    requires RotatedRight(t, root, u, t2, root2) && k in N
    ensures OrderedAt(t2, RightSets(t, S, u), k, -1)
  {
    RightApart(t, root, N, S, u);
    var w := t[u].left;
    var S2 := RightSets(t, S, u);
    assert forall j :: 0 <= j < |t| ==> t2[j].x == t[j].x;
    if k == w {
      RightOrderAtW(t, root, N, S, u, t2, root2);
    } else if k == u {
      RightOrderAtU(t, root, N, S, u, t2, root2);
    } else {
      assert OrderedAt(t, S, k, -1) && Linked(t, root, N, S, k);
      RightKids(t, S, u, t2[k].right);
      RightKids(t, S, u, t2[k].left);
      OrderedFrom(t, S, k, t2, S2, Kids(S, t[k].left), Kids(S, t[k].right));
    }
  }

  /** After a right rotation `w` has `u`'s side of the tree on its right. */
  lemma RightOrderAtW(t: seq<BTNode>, root: int, N: set<int>, S: seq<set<int>>, u: int,
                     t2: seq<BTNode>, root2: int)
    requires SearchTree(t, root, N, S) && u in N && t[u].left != -1
    requires RotatedRight(t, root, u, t2, root2)
    ensures OrderedAt(t2, RightSets(t, S, u), t[u].left, -1)
  {
    RightApart(t, root, N, S, u);
    var w := t[u].left;
    var b := t[w].right;
    assert forall j :: 0 <= j < |t| ==> t2[j].x == t[j].x;
    assert OrderedAt(t, S, u, -1) && OrderedAt(t, S, w, -1);
    RightKids(t, S, u, u);
    RightKids(t, S, u, t[w].left);
    OrderedFrom(t, S, w, t2, RightSets(t, S, u), Kids(S, t[w].left), {u} + Kids(S, t[u].right) + Kids(S, b));
  }

  /** After a right rotation `u` has `w`'s old right subtree on its left. */
  lemma RightOrderAtU(t: seq<BTNode>, root: int, N: set<int>, S: seq<set<int>>, u: int,
                     t2: seq<BTNode>, root2: int)
    requires SearchTree(t, root, N, S) && u in N && t[u].left != -1
    requires RotatedRight(t, root, u, t2, root2)
    ensures OrderedAt(t2, RightSets(t, S, u), u, -1)
  {
    RightApart(t, root, N, S, u);
    var w := t[u].left;
    var b := t[w].right;
    assert forall j :: 0 <= j < |t| ==> t2[j].x == t[j].x;
    assert OrderedAt(t, S, u, -1);
    RightKids(t, S, u, t[u].right);
    RightKids(t, S, u, b);
    OrderedFrom(t, S, u, t2, RightSets(t, S, u), Kids(S, b), Kids(S, t[u].right));
  }

  /**
   * A right rotation at `u` hands `u`'s whole subtree to the lifted child and
   * leaves `u` a strictly smaller one: the measures of the treap's loops.
   */
  lemma RightSetsMove(t: seq<BTNode>, root: int, N: set<int>, S: seq<set<int>>, u: int)
    requires Shape(t, root, N, S) && u in N && 0 <= u < |t| && 0 <= t[u].left < |t|
    ensures RightSets(t, S, u)[t[u].left] == S[u] && RightSets(t, S, u)[u] < S[u]
    ensures u in S[u] && u !in S[t[u].left] && S[t[u].left] < S[u]
  {
    assert Linked(t, root, N, S, u);
    var w := t[u].left;
    assert Linked(t, root, N, S, w);
    assert w !in RightSets(t, S, u)[u];
  }

  /**
   * `rotateRight(u)` (Treap.cpp:105-126) on the arena: the result is the
   * rotated tree, with the same nodes and values, still a search tree.
   */
  method RotateRight(t: seq<BTNode>, root: int, ghost N: set<int>, ghost S: seq<set<int>>, u: int)
    returns (t2: seq<BTNode>, root2: int)
    requires Shape(t, root, N, S) && u in N && t[u].left != -1
    ensures RotatedRight(t, root, u, t2, root2)
    ensures Shape(t2, root2, N, RightSets(t, S, u)) && Values(t2, N) == Values(t, N)
    ensures SearchTree(t, root, N, S) ==> SearchTree(t2, root2, N, RightSets(t, S, u))
  {
    RightApart(t, root, N, S, u);
    var w := t[u].left;
    t2 := t[w := t[w].(parent := t[u].parent)];
    var g := t2[w].parent;
    if g != -1 {
      if t2[g].left == u {
        t2 := t2[g := t2[g].(left := w)];
      } else {
        t2 := t2[g := t2[g].(right := w)];
      }
    }
    var b := t2[w].right;
    t2 := t2[u := t2[u].(left := b)];
    if b != -1 {
      t2 := t2[b := t2[b].(parent := u)];
    }
    t2 := t2[u := t2[u].(parent := w)];
    t2 := t2[w := t2[w].(right := u)];
    root2 := root;
    if u == root {
      root2 := w;
      t2 := t2[w := t2[w].(parent := -1)];
    }
    RightShape(t, root, N, S, u, t2, root2);
  }

  /** A right rotation leaves a tree of the same nodes and values, ordered if the old one was. */
  lemma RightShape(t: seq<BTNode>, root: int, N: set<int>, S: seq<set<int>>, u: int, t2: seq<BTNode>, root2: int)
    requires Shape(t, root, N, S) && u in N && t[u].left != -1
    requires RotatedRight(t, root, u, t2, root2)
    ensures Shape(t2, root2, N, RightSets(t, S, u)) && Values(t2, N) == Values(t, N)
    ensures SearchTree(t, root, N, S) ==> SearchTree(t2, root2, N, RightSets(t, S, u))
  {
    RightApart(t, root, N, S, u);
    var S2 := RightSets(t, S, u);
    forall k | k in N
      ensures 0 <= k < |t2| && S2[k] <= N && Linked(t2, root2, N, S2, k)
    {
      RightChildren(t, root, N, S, u, t2, root2, k);
      RightParent(t, root, N, S, u, t2, root2, k);
      RightSetsFit(t, root, N, S, u, t2, root2, k);
    }
    var w := t[u].left;
    if u != root {
      assert root != w && S2[root] == S[root];
    }
    SameValues(t, t2, N);
    if SearchTree(t, root, N, S) {
      forall k | k in N && 0 <= k < |t2|
        ensures OrderedAt(t2, S2, k, -1)
      {
        RightOrder(t, root, N, S, u, t2, root2, k);
      }
    }
  }
}
