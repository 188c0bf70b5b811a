/**
 * DLList (src/linkedlists/DLList.cpp): a doubly-linked list closed into a ring by
 * a sentinel node, `dummy`. Walking `next` from `dummy` visits the elements in
 * order and comes back to `dummy`; `prev` walks the same ring backwards. Every
 * list operation finds its node with `getNode`, which starts from whichever end
 * is nearer.
 */
module LinkedDLList {
  import opened SeqEdit

  /** `DNode<T>` (include/ds/node.h): a value and the next and previous pointers. */
  class DNode<T> {
    var x: T
    var next: DNode?<T>
    var prev: DNode?<T>

    constructor (x0: T)
      ensures x == x0 && next == null && prev == null
    {
      x := x0;
      next, prev := null, null;
    }
  }

  /** `b` follows `a` in the ring: `a->next == b` and `b->prev == a`. */
  ghost predicate Adjacent<T>(a: DNode<T>, b: DNode<T>)
    reads a, b
  {
    a.next == b && b.prev == a
  }

  /** Each node of `r` is followed by the next one: walking `next` goes forward through `r`, `prev` backward. */
  ghost predicate Linked<T>(r: seq<DNode<T>>)
    reads r
  {
    forall k, l :: 0 <= k && l == k + 1 && l < |r| ==> Adjacent(r[k], r[l])
  }

  /** Nodes appear at most once in `r`, except that its first and last entries may coincide. */
  ghost predicate RingDistinct<T>(r: seq<T>)
  {
    forall a, b :: 0 <= a < b < |r| && r[a] == r[b] ==> a == 0 && b == |r| - 1
  }

  /** The sentinel, then distinct element nodes, then the sentinel again, is ring-distinct. */
  lemma RingOfDistinct<T>(d: T, nodes: seq<T>)
    requires forall k, l :: 0 <= k < l < |nodes| ==> nodes[k] != nodes[l]
    requires forall k :: 0 <= k < |nodes| ==> nodes[k] != d
    ensures RingDistinct([d] + nodes + [d])
  {
  }

  /** Inserting into the element nodes inserts into the ring one position further on. */
  lemma RingInsert<T>(d: T, nodes: seq<T>, k: nat, u: T)
    requires k <= |nodes|
    ensures [d] + Insert(nodes, k, u) + [d] == Insert([d] + nodes + [d], k + 1, u)
  {
  }

  /** Deleting from the element nodes deletes from the ring one position further on. */
  lemma RingDelete<T>(d: T, nodes: seq<T>, k: nat)
    requires k < |nodes|
    ensures [d] + Delete(nodes, k) + [d] == Delete([d] + nodes + [d], k + 1)
  {
  }

  /** Deleting an entry from a sequence of distinct entries, none equal to `d`, keeps both properties. */
  lemma DeleteDistinct<T>(s: seq<T>, k: nat, d: T)
    requires k < |s|
    requires forall a, b :: 0 <= a < b < |s| ==> s[a] != s[b]
    requires forall a :: 0 <= a < |s| ==> s[a] != d
    ensures forall a, b :: 0 <= a < b < |s| - 1 ==> Delete(s, k)[a] != Delete(s, k)[b]
    ensures forall a :: 0 <= a < |s| - 1 ==> Delete(s, k)[a] != d && Delete(s, k)[a] != s[k]
  {
  }

  /** Inserting a new entry into a sequence of distinct entries, none equal to `d`, keeps both properties. */
  lemma InsertDistinct<T>(s: seq<T>, k: nat, u: T, d: T)
    requires k <= |s| && u !in s && u != d
    requires forall a, b :: 0 <= a < b < |s| ==> s[a] != s[b]
    requires forall a :: 0 <= a < |s| ==> s[a] != d
    ensures forall a, b :: 0 <= a < b < |s| + 1 ==> Insert(s, k, u)[a] != Insert(s, k, u)[b]
    ensures forall a :: 0 <= a < |s| + 1 ==> Insert(s, k, u)[a] != d
  {
  }

  /**
   * Linking a node `u` between positions `k` and `k + 1` of a ring whose other links
   * are intact, by setting `u`'s two pointers and the two pointers that faced each
   * other across the gap, leaves a linked ring with `u` at position `k + 1`.
   */
  lemma LinkedAfterInsert<T>(r: seq<DNode<T>>, k: nat, u: DNode<T>)
    requires k + 1 < |r| && RingDistinct(r) && u !in r
    requires Adjacent(r[k], u) && Adjacent(u, r[k + 1])
    requires forall j, l :: 0 <= j && l == j + 1 && l < |r| && r[j] != r[k] ==> r[j].next == r[l]
    requires forall j, l :: 0 <= j && l == j + 1 && l < |r| && r[l] != r[k + 1] ==> r[l].prev == r[j]
    ensures Linked(Insert(r, k + 1, u))
  {
    var r' := Insert(r, k + 1, u);
    forall m, l | 0 <= m && l == m + 1 && l < |r'|
      ensures Adjacent(r'[m], r'[l])
    {
      if m < k {
        assert r'[m] == r[m] && r'[l] == r[l];
      } else if m > k + 1 {
        assert r'[m] == r[m - 1] && r'[l] == r[m];
      }
    }
  }

  /**
   * The four pointer writes of `addBefore(w, x)`: `u` takes `w->prev` and `w` as its
   * neighbours, then `w->prev` and the old predecessor's `next` turn to `u`. With
   * `w` at ring position `k + 1`, the ring stays linked with `u` at position `k + 1`,
   * and no value moves.
   */
  method Link<T>(ghost r: seq<DNode<T>>, ghost k: nat, u: DNode<T>, w: DNode<T>)
    requires k + 1 < |r| && w == r[k + 1]
    requires Linked(r) && RingDistinct(r) && u !in r
    modifies u, w, w.prev
    ensures Linked(Insert(r, k + 1, u))
    ensures forall j :: 0 <= j < |r| ==> r[j].x == old(r[j].x)
    ensures u.x == old(u.x)
  {
    assert Adjacent(r[k], w);
    u.prev := w.prev;
    u.next := w;
    u.next.prev := u;  // w->prev = u
    u.prev.next := u;
    forall j, l | 0 <= j && l == j + 1 && l < |r| && r[j] != r[k]
      ensures r[j].next == r[l]
    {
      assert old(Adjacent(r[j], r[l])) && r[j] != u;
    }
    forall j, l | 0 <= j && l == j + 1 && l < |r| && r[l] != w
      ensures r[l].prev == r[j]
    {
      assert old(Adjacent(r[j], r[l])) && r[l] != u;
    }
    LinkedAfterInsert(r, k, u);
  }

  /**
   * Unlinking a node `r[k]` from a ring whose other links are intact: once its
   * predecessor points forward to its successor and the successor back to the
   * predecessor, the ring without position `k` is linked.
   */
  lemma LinkedAfterDelete<T>(r: seq<DNode<T>>, k: nat)
    requires 1 <= k < |r| - 1 && RingDistinct(r)
    requires Adjacent(r[k - 1], r[k + 1])
    requires forall j, l :: 0 <= j && l == j + 1 && l < |r| && r[j] != r[k - 1] ==> r[j].next == r[l]
    requires forall j, l :: 0 <= j && l == j + 1 && l < |r| && r[l] != r[k + 1] ==> r[l].prev == r[j]
    ensures Linked(Delete(r, k))
  {
    var r' := Delete(r, k);
    forall m, l | 0 <= m && l == m + 1 && l < |r'|
      ensures Adjacent(r'[m], r'[l])
    {
      if m < k - 1 {
        assert r'[m] == r[m] && r'[l] == r[l];
      } else if m >= k {
        assert r'[m] == r[m + 1] && r'[l] == r[m + 2];
      }
    }
  }

  /**
   * The two pointer writes of `remove(i)` around the node `w` at ring position `k`:
   * `w->prev->next = w->next` and `w->next->prev = w->prev`. The ring without `w` is
   * linked, and no value moves.
   */
  method Unlink<T>(ghost r: seq<DNode<T>>, ghost k: nat, w: DNode<T>)
    requires 1 <= k < |r| - 1 && w == r[k]
    requires Linked(r) && RingDistinct(r)
    modifies r[k - 1], r[k + 1]
    ensures Linked(Delete(r, k))
    ensures forall j :: 0 <= j < |r| ==> r[j].x == old(r[j].x)
  {
    assert Adjacent(r[k - 1], w) && Adjacent(w, r[k + 1]);
    w.prev.next := w.next;
    w.next.prev := w.prev;
    forall j, l | 0 <= j && l == j + 1 && l < |r| && r[j] != r[k - 1]
      ensures r[j].next == r[l]
    {
      assert old(Adjacent(r[j], r[l]));
    }
    forall j, l | 0 <= j && l == j + 1 && l < |r| && r[l] != r[k + 1]
      ensures r[l].prev == r[j]
    {
      assert old(Adjacent(r[j], r[l]));
    }
    LinkedAfterDelete(r, k);
  }

  /**
   * The list index `getNode(i)` reaches among `n` elements: `i` itself when
   * `0 <= i <= n` (index `n` being the sentinel), 0 for negative `i`, since the
   * forward walk takes no step, and `n` for `i > n`, since the backward walk takes none.
   */
  function Clamp(i: int, n: nat): (c: nat)
    ensures c <= n
    ensures 0 <= i <= n ==> c == i
    ensures i > n ==> c == n
    ensures i < 0 ==> c == 0
  {
    if i < 0 then 0 else if i > n then n else i
  }

  class DLList<T> {
    const dummy: DNode<T>
    var n: nat
    ghost var Contents: seq<T>
    ghost var Nodes: seq<DNode<T>>
    ghost var Repr: set<object>

    /** The ring as a sequence: the sentinel, the element nodes in order, the sentinel again. */
    ghost function Ring(): (r: seq<DNode<T>>)
      reads this
      ensures |r| == |Nodes| + 2 && r[0] == dummy && r[|r| - 1] == dummy
    {
      [dummy] + Nodes + [dummy]
    }

    ghost predicate Valid()
      reads this, Repr
      ensures Valid() ==> this in Repr && dummy in Repr
    {
      this in Repr && dummy in Repr &&
      n == |Nodes| == |Contents| &&
      (forall k :: 0 <= k < |Nodes| ==> Nodes[k] in Repr && Nodes[k] != dummy && Nodes[k].x == Contents[k]) &&
      (forall k, l :: 0 <= k < l < |Nodes| ==> Nodes[k] != Nodes[l]) &&
      Linked(Ring())
    }

    /**
     * `DLList()`: the sentinel alone, pointing at itself both ways. The source builds
     * it from `T(0)`; here that value is the parameter `zero`.
     */
    constructor (zero: T)
      ensures Valid() && fresh(Repr)
      ensures Contents == [] && dummy.x == zero
    {
      var d := new DNode<T>(zero);
      dummy := d;
      n := 0;
      new;
      d.next := d;
      d.prev := d;
      Contents, Nodes := [], [];
      Repr := {this, d};
    }

    method Size() returns (r: nat)
      requires Valid()
      ensures r == |Contents|
    {
      r := n;
    }

    /**
     * `getNode(i)`: for `i < n/2`, `i` steps along `next` from the first node;
     * otherwise `n - i` steps along `prev` from the sentinel. Node `i` for
     * `0 <= i < n`, the sentinel for `i >= n`, and the first node (or the sentinel
     * of an empty list) for negative `i`.
     */
    method GetNode(i: int) returns (p: DNode<T>)
      requires Valid()
      ensures p == Ring()[Clamp(i, n) + 1]
    {
      assert Adjacent(Ring()[0], Ring()[1]);
      if i < n / 2 {
        p := dummy.next;
        var j := 0;
        while j < i
          invariant 0 <= j <= n && (i >= 0 ==> j <= i) && (i < 0 ==> j == 0)
          invariant p == Ring()[j + 1]
        {
          assert Adjacent(Ring()[j + 1], Ring()[j + 2]);
          p := p.next;
          j := j + 1;
        }
      } else {
        p := dummy;
        var j := n;
        while j > i
          invariant if i > n then j == n else i <= j <= n
          invariant p == Ring()[j + 1]
        {
          assert Adjacent(Ring()[j], Ring()[j + 1]);
          p := p.prev;
          j := j - 1;
        }
      }
    }

    /** `addBefore(w, x)`: a new node linked in just before ring position `k + 1`, which is `w`. */
    method AddBefore(w: DNode<T>, ghost k: nat, x: T) returns (u: DNode<T>)
      requires Valid() && k <= n && w == Ring()[k + 1]
      modifies Repr
      ensures Valid() && fresh(u) && Repr == old(Repr) + {u}
      ensures Nodes == Insert(old(Nodes), k, u)
      ensures Contents == Insert(old(Contents), k, x)
      ensures dummy.x == old(dummy.x)
    {
      ghost var R, N, C := Ring(), Nodes, Contents;
      RingOfDistinct(dummy, Nodes);
      assert Linked(R);
      assert Adjacent(R[k], w);
      u := new DNode(x);
      InsertDistinct(Nodes, k, u, dummy);
      RingInsert(dummy, Nodes, k, u);
      Link(R, k, u, w);
      n := n + 1;
      Nodes := Insert(Nodes, k, u);
      Contents := Insert(Contents, k, x);
      Repr := Repr + {u};
      assert Ring() == Insert(R, k + 1, u);
      assert Linked(Insert(R, k + 1, u));
    }

    /**
     * `get(i)`: the value in the node `getNode(i)` finds. Element `i` in range; the
     * sentinel's value (the `T(0)` it was built from, unless a `set` overwrote it) for
     * `i >= n`; the first element for negative `i`.
     */
    method Get(i: int) returns (r: T)
      requires Valid()
      ensures 0 <= i < |Contents| ==> r == Contents[i]
      ensures i >= |Contents| ==> r == dummy.x
      ensures i < 0 ==> r == if |Contents| > 0 then Contents[0] else dummy.x
    {
      var p := GetNode(i);
      r := p.x;
    }

    /**
     * `set(i, x)`: overwrites the value in the node `getNode(i)` finds and returns the
     * previous one. Out of range that node is the sentinel, whose value changes while
     * the list does not.
     */
    method Set(i: int, x: T) returns (y: T)
      requires Valid()
      modifies Repr
      ensures Valid() && Repr == old(Repr) && Nodes == old(Nodes)
      ensures Clamp(i, old(|Contents|)) < old(|Contents|) ==>
        y == old(Contents[Clamp(i, |Contents|)]) && dummy.x == old(dummy.x) &&
        Contents == old(Contents)[Clamp(i, old(|Contents|)) := x]
      ensures Clamp(i, old(|Contents|)) == old(|Contents|) ==>
        y == old(dummy.x) && dummy.x == x && Contents == old(Contents)
    {
      ghost var R, N, C := Ring(), Nodes, Contents;
      ghost var c := Clamp(i, n);
      var u := GetNode(i);
      y := u.x;
      u.x := x;
      forall m, l | 0 <= m && l == m + 1 && l < |R|
        ensures Adjacent(R[m], R[l])
      {
        assert old(Adjacent(R[m], R[l]));
      }
      assert Linked(R);
      if c < n {
        assert y == C[c];
        Contents := Contents[c := x];
      } else {
        assert u == dummy;
      }
      forall a | 0 <= a < |Nodes|
        ensures Nodes[a].x == Contents[a]
      {
        assert Nodes[a] == R[a + 1];
        if a != c {
          assert Nodes[a] != u;
        }
      }
      assert Ring() == R;
    }

    /**
     * `add(i, x)`: a new node before the one `getNode(i)` finds, so `x` lands at index
     * `i` when `0 <= i <= n`, at the front for negative `i` and at the back for `i > n`.
     */
    method Add(i: int, x: T)
      requires Valid()
      modifies Repr
      ensures Valid() && fresh(Repr - old(Repr)) && dummy.x == old(dummy.x)
      ensures Contents == Insert(old(Contents), Clamp(i, old(|Contents|)), x)
    {
      var w := GetNode(i);
      var _ := AddBefore(w, Clamp(i, n), x);
    }

    /**
     * The unlinking half of `remove(i)`: `w`, at ring position `k + 1`, leaves the
     * ring and the list, and its node leaves the footprint.
     */
    method Detach(w: DNode<T>, ghost k: nat)
      requires Valid() && k < n && w == Ring()[k + 1]
      modifies Repr
      ensures Valid() && Repr == old(Repr) - {w}
      ensures Nodes == Delete(old(Nodes), k)
      ensures Contents == Delete(old(Contents), k)
      ensures dummy.x == old(dummy.x)
    {
      ghost var R, N, C := Ring(), Nodes, Contents;
      RingOfDistinct(dummy, Nodes);
      DeleteDistinct(Nodes, k, dummy);
      RingDelete(dummy, Nodes, k);
      Unlink(R, k + 1, w);
      n := n - 1;
      Nodes := Delete(Nodes, k);
      Contents := Delete(Contents, k);
      Repr := Repr - {w};
      assert Ring() == Delete(R, k + 1);
      assert Linked(Delete(R, k + 1));
      forall a | 0 <= a < |Nodes|
        ensures Nodes[a] in Repr && Nodes[a] != dummy && Nodes[a].x == Contents[a]
      {
        var b := if a < k then a else a + 1;
        assert Nodes[a] == N[b] == R[b + 1] && Contents[a] == C[b];
      }
    }

    /**
     * `remove(i)`: unlinks the node `getNode(i)` finds and returns its value; element
     * `i`, or the first element for negative `i`. Removing from an empty list, or at
     * `i >= n`, would unlink the sentinel itself, which callers must not ask for.
     */
    method Remove(i: int) returns (x: T)
      requires Valid() && 0 < |Contents| && i < |Contents|
      modifies Repr
      ensures Valid() && Repr <= old(Repr) && dummy.x == old(dummy.x)
      ensures x == old(Contents[Clamp(i, |Contents|)])
      ensures Contents == Delete(old(Contents), Clamp(i, old(|Contents|)))
    {
      ghost var k := Clamp(i, n);
      var w := GetNode(i);
      x := w.x;
      assert w == Nodes[k] && x == Contents[k];
      Detach(w, k);
    }

    /** `addFirst(x)`: `add(0, x)`. */
    method AddFirst(x: T)
      requires Valid()
      modifies Repr
      ensures Valid() && fresh(Repr - old(Repr)) && dummy.x == old(dummy.x)
      ensures Contents == [x] + old(Contents)
    {
      Add(0, x);
    }

    /** `removeFirst()`: `remove(0)`. */
    method RemoveFirst() returns (x: T)
      requires Valid() && |Contents| > 0
      modifies Repr
      ensures Valid() && Repr <= old(Repr) && dummy.x == old(dummy.x)
      ensures x == old(Contents[0]) && Contents == old(Contents[1..])
    {
      x := Remove(0);
    }

    /** `addLast(x)`: `add(n, x)`. */
    method AddLast(x: T)
      requires Valid()
      modifies Repr
      ensures Valid() && fresh(Repr - old(Repr)) && dummy.x == old(dummy.x)
      ensures Contents == old(Contents) + [x]
    {
      Add(n, x);
    }

    /** `removeLast()`: `remove(n - 1)`. */
    method RemoveLast() returns (x: T)
      requires Valid() && |Contents| > 0
      modifies Repr
      ensures Valid() && Repr <= old(Repr) && dummy.x == old(dummy.x)
      ensures x == old(Contents[|Contents| - 1]) && Contents == old(Contents[..|Contents| - 1])
    {
      x := Remove(n - 1);
    }

    /** `push(x)`: `addFirst(x)`; the top of the stack is the front of the list. */
    method Push(x: T)
      requires Valid()
      modifies Repr
      ensures Valid() && fresh(Repr - old(Repr)) && dummy.x == old(dummy.x)
      ensures Contents == [x] + old(Contents)
    {
      AddFirst(x);
    }

    /** `pop()`: `removeFirst()`. */
    method Pop() returns (x: T)
      requires Valid() && |Contents| > 0
      modifies Repr
      ensures Valid() && Repr <= old(Repr) && dummy.x == old(dummy.x)
      ensures x == old(Contents[0]) && Contents == old(Contents[1..])
    {
      x := RemoveFirst();
    }

    /** `enqueue(x)`: `addFirst(x)`; values join at the front and leave at the back. */
    method Enqueue(x: T)
      requires Valid()
      modifies Repr
      ensures Valid() && fresh(Repr - old(Repr)) && dummy.x == old(dummy.x)
      ensures Contents == [x] + old(Contents)
    {
      AddFirst(x);
    }

    /** `dequeue()`: `removeLast()`, the value enqueued longest ago. */
    method Dequeue() returns (x: T)
      requires Valid() && |Contents| > 0
      modifies Repr
      ensures Valid() && Repr <= old(Repr) && dummy.x == old(dummy.x)
      ensures x == old(Contents[|Contents| - 1]) && Contents == old(Contents[..|Contents| - 1])
    {
      x := RemoveLast();
    }
  }

  /** The opening of `listCheck`: `add(0, ·)` of 1, 2, 3, then reading indices 0, 1 and 2. */
  method ListFill(d: DLList<int>) returns (seen: seq<int>)
    requires d.Valid() && d.Contents == []
    modifies d.Repr
    ensures d.Valid() && fresh(d.Repr - old(d.Repr)) && d.Contents == [3, 2, 1]
    ensures seen == [3, 2, 1]
  {
    d.Add(0, 1);
    assert fresh(d.Repr - old(d.Repr));
    d.Add(0, 2);
    assert fresh(d.Repr - old(d.Repr));
    assert d.Contents == [2, 1];
    d.Add(0, 3);
    assert fresh(d.Repr - old(d.Repr));
    var g0 := d.Get(0);
    var g1 := d.Get(1);
    var g2 := d.Get(2);
    seen := [g0, g1, g2];
  }

  /** The middle of `listCheck`: `set(0, 0)` on 3, 2, 1, then `remove(0)`, reading index 0 after each. */
  method ListSetRemove(d: DLList<int>) returns (seen: seq<int>)
    requires d.Valid() && d.Contents == [3, 2, 1]
    modifies d.Repr
    ensures d.Valid() && fresh(d.Repr - old(d.Repr)) && d.Contents == [2, 1]
    ensures seen == [0, 2]
  {
    var _ := d.Set(0, 0);
    assert fresh(d.Repr - old(d.Repr));
    assert d.Contents == [0, 2, 1];
    var g3 := d.Get(0);
    var _ := d.Remove(0);
    assert fresh(d.Repr - old(d.Repr));
    var g4 := d.Get(0);
    seen := [g3, g4];
  }

  /** The closing loop of `listCheck`: `remove(0)` while `size()` is non-zero. */
  method Drain(d: DLList<int>)
    requires d.Valid()
    modifies d.Repr
    ensures d.Valid() && fresh(d.Repr - old(d.Repr)) && d.Contents == []
  {
    var size := d.Size();
    while size != 0
      invariant d.Valid() && fresh(d.Repr - old(d.Repr)) && size == |d.Contents|
      decreases size
    {
      var _ := d.Remove(0);
      size := d.Size();
    }
  }

  /** `listCheck`: reads 3, 2, 1; after `set(0, 0)`, 0; after `remove(0)`, 2; then drains. */
  method ListCheck(d: DLList<int>) returns (seen: seq<int>)
    requires d.Valid() && d.Contents == []
    modifies d.Repr
    ensures d.Valid() && fresh(d.Repr - old(d.Repr)) && d.Contents == []
    ensures seen == [3, 2, 1, 0, 2]
  {
    var filled := ListFill(d);
    var rest := ListSetRemove(d);
    seen := filled + rest;
    Drain(d);
  }

  /** The start of `dequeCheck`: addLast 0, 1, 2. */
  method DequeFillBack(d: DLList<int>)
    requires d.Valid() && d.Contents == []
    modifies d.Repr
    ensures d.Valid() && fresh(d.Repr - old(d.Repr)) && d.Contents == [0, 1, 2]
  {
    d.AddLast(0);
    assert fresh(d.Repr - old(d.Repr)) && d.Contents == [0];
    d.AddLast(1);
    assert fresh(d.Repr - old(d.Repr)) && d.Contents == [0, 1];
    d.AddLast(2);
  }

  /** The first half of `dequeCheck`: addLast 0, 1, 2, then addFirst 3, 4, 5. */
  method DequeFill(d: DLList<int>)
    requires d.Valid() && d.Contents == []
    modifies d.Repr
    ensures d.Valid() && fresh(d.Repr - old(d.Repr)) && d.Contents == [5, 4, 3, 0, 1, 2]
  {
    DequeFillBack(d);
    d.AddFirst(3);
    assert fresh(d.Repr - old(d.Repr)) && d.Contents == [3, 0, 1, 2];
    d.AddFirst(4);
    assert fresh(d.Repr - old(d.Repr)) && d.Contents == [4, 3, 0, 1, 2];
    d.AddFirst(5);
  }

  /** The middle of `dequeCheck`: removeFirst twice on 5, 4, 3, 0, 1, 2 gives 5, 4. */
  method DequeTakeFront(d: DLList<int>) returns (out: seq<int>)
    requires d.Valid() && d.Contents == [5, 4, 3, 0, 1, 2]
    modifies d.Repr
    ensures d.Valid() && fresh(d.Repr - old(d.Repr)) && d.Contents == [3, 0, 1, 2]
    ensures out == [5, 4]
  {
    var e0 := d.RemoveFirst();
    assert d.Repr <= old(d.Repr) && d.Contents == [4, 3, 0, 1, 2];
    var e1 := d.RemoveFirst();
    out := [e0, e1];
  }

  /** The end of `dequeCheck`: removeLast four times on 3, 0, 1, 2 gives 2, 1, 0, 3. */
  method DequeTakeBack(d: DLList<int>) returns (out: seq<int>)
    requires d.Valid() && d.Contents == [3, 0, 1, 2]
    modifies d.Repr
    ensures d.Valid() && fresh(d.Repr - old(d.Repr)) && d.Contents == []
    ensures out == [2, 1, 0, 3]
  {
    var e0 := d.RemoveLast();
    assert d.Repr <= old(d.Repr) && d.Contents == [3, 0, 1];
    var e1 := d.RemoveLast();
    assert d.Repr <= old(d.Repr) && d.Contents == [3, 0];
    var e2 := d.RemoveLast();
    assert d.Repr <= old(d.Repr) && d.Contents == [3];
    var e3 := d.RemoveLast();
    out := [e0, e1, e2, e3];
  }

  /** `dequeCheck`: after the fill, removeFirst twice gives 5, 4 and removeLast four times 2, 1, 0, 3. */
  method DequeCheck(d: DLList<int>) returns (out: seq<int>)
    requires d.Valid() && d.Contents == []
    modifies d.Repr
    ensures d.Valid() && fresh(d.Repr - old(d.Repr)) && d.Contents == []
    ensures out == [5, 4, 2, 1, 0, 3]
  {
    DequeFill(d);
    var front := DequeTakeFront(d);
    var back := DequeTakeBack(d);
    out := front + back;
  }

  /** `stackCheck`: push 0, 1, 2, then pop until empty. */
  method StackCheck(d: DLList<int>) returns (out: seq<int>)
    requires d.Valid() && d.Contents == []
    modifies d.Repr
    ensures d.Valid() && fresh(d.Repr - old(d.Repr)) && d.Contents == []
    ensures out == [2, 1, 0]
  {
    d.Push(0);
    assert fresh(d.Repr - old(d.Repr));
    d.Push(1);
    assert fresh(d.Repr - old(d.Repr));
    d.Push(2);
    assert fresh(d.Repr - old(d.Repr));
    var s0 := d.Pop();
    assert fresh(d.Repr - old(d.Repr));
    var s1 := d.Pop();
    assert fresh(d.Repr - old(d.Repr));
    var s2 := d.Pop();
    assert fresh(d.Repr - old(d.Repr));
    out := [s0, s1, s2];
  }

  /** `queueCheck`: enqueue 0, 1, 2, then dequeue until empty; values leave in the order they came. */
  method QueueCheck(d: DLList<int>) returns (out: seq<int>)
    requires d.Valid() && d.Contents == []
    modifies d.Repr
    ensures d.Valid() && fresh(d.Repr - old(d.Repr)) && d.Contents == []
    ensures out == [0, 1, 2]
  {
    d.Enqueue(0);
    assert fresh(d.Repr - old(d.Repr));
    d.Enqueue(1);
    assert fresh(d.Repr - old(d.Repr));
    d.Enqueue(2);
    assert fresh(d.Repr - old(d.Repr));
    var q0 := d.Dequeue();
    assert fresh(d.Repr - old(d.Repr));
    var q1 := d.Dequeue();
    assert fresh(d.Repr - old(d.Repr));
    var q2 := d.Dequeue();
    out := [q0, q1, q2];
  }

  /** The DLList part of the linked-list tests: the four checks in turn on one list. */
  method ChecksInOrder()
    returns (list: seq<int>, deque: seq<int>, stack: seq<int>, queue: seq<int>)
    ensures list == [3, 2, 1, 0, 2]
    ensures deque == [5, 4, 2, 1, 0, 3]
    ensures stack == [2, 1, 0]
    ensures queue == [0, 1, 2]
  {
    var d := new DLList<int>(0);
    list := ListCheck(d);
    deque := DequeCheck(d);
    stack := StackCheck(d);
    queue := QueueCheck(d);
  }
}
