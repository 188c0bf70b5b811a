/**
 * SLList (src/linkedlists/SLList.cpp): a singly-linked list used both as a stack
 * (push and pop at the head) and as a queue (enqueue at the tail, dequeue from the
 * head). The ghost sequence `Nodes` lists the live nodes from head to tail.
 */
module LinkedSLList {
  import opened Wrappers

  /** `Node<T>` (include/ds/node.h): a value and the next pointer. */
  class Node<T> {
    var x: T
    var next: Node?<T>

    constructor (x0: T)
      ensures x == x0 && next == null
    {
      x := x0;
      next := null;
    }
  }

  class SLList<T> {
    var head: Node?<T>
    var tail: Node?<T>
    var n: nat
    ghost var Contents: seq<T>
    ghost var Nodes: seq<Node<T>>
    ghost var Repr: set<object>

    /**
     * The first `n` nodes reached from `head` are `Nodes`, holding `Contents`, and
     * `tail` is the last of them. What `head` and the last node's `next` point to
     * beyond the list is never read, so it is left open.
     */
    ghost predicate Valid()
      reads this, Repr
      ensures Valid() ==> this in Repr
    {
      this in Repr &&
      (forall k :: 0 <= k < |Nodes| ==> Nodes[k] in Repr) &&
      (forall k, l :: 0 <= k < l < |Nodes| ==> Nodes[k] != Nodes[l]) &&
      n == |Nodes| == |Contents| &&
      (forall k :: 0 <= k < |Nodes| ==> Nodes[k].x == Contents[k]) &&
      (forall k :: 0 <= k < |Nodes| - 1 ==> Nodes[k].next == Nodes[k + 1]) &&
      (n > 0 ==> head == Nodes[0] && tail == Nodes[n - 1]) &&
      (n == 0 ==> tail == null)
    }

    constructor ()
      ensures Valid() && fresh(Repr)
      ensures Contents == []
    {
      head, tail := null, null;
      n := 0;
      Contents, Nodes := [], [];
      Repr := {this};
    }

    method Size() returns (r: nat)
      requires Valid()
      ensures r == |Contents|
    {
      r := n;
    }

    /** `push(x)`: a new node in front of `head`; it is also the tail when the list was empty. */
    method Push(x: T)
      requires Valid()
      modifies this
      ensures Valid() && fresh(Repr - old(Repr))
      ensures Contents == [x] + old(Contents)
    {
      var u := new Node(x);
      u.next := head;
      head := u;
      if n == 0 {
        tail := u;
      }
      n := n + 1;
      Contents := [x] + Contents;
      Nodes := [u] + Nodes;
      Repr := Repr + {u};
    }

    /** `pop()`: unlinks the head; on an empty list it throws "list is empty". */
    method Pop() returns (r: Result<T>)
      requires Valid()
      modifies this
      ensures Valid() && Repr == old(Repr)
      ensures old(Contents) == [] ==> r == Err(ListEmpty) && Contents == []
      ensures old(Contents) != [] ==> r == Ok(old(Contents)[0]) && Contents == old(Contents)[1..]
    {
      if n == 0 {
        return Err(ListEmpty);
      }
      r := Ok(head.x);
      head := head.next;
      n := n - 1;
      if n == 0 {
        tail := null;
      }
      Contents := Contents[1..];
      Nodes := Nodes[1..];
    }

    /** `enqueue(x)`: a new node after `tail` (or as the only node). */
    method Enqueue(x: T)
      requires Valid()
      modifies Repr
      ensures Valid() && fresh(Repr - old(Repr))
      ensures Contents == old(Contents) + [x]
    {
      var u := new Node(x);
      if n == 0 {
        head := u;
      } else {
        tail.next := u;
      }
      tail := u;
      n := n + 1;
      Contents := Contents + [x];
      Nodes := Nodes + [u];
      Repr := Repr + {u};
    }

    /** `dequeue()` is `pop()`: the head is the oldest element once only `enqueue` adds. */
    method Dequeue() returns (r: Result<T>)
      requires Valid()
      modifies this
      ensures Valid() && Repr == old(Repr)
      ensures old(Contents) == [] ==> r == Err(ListEmpty) && Contents == []
      ensures old(Contents) != [] ==> r == Ok(old(Contents)[0]) && Contents == old(Contents)[1..]
    {
      r := Pop();
    }
  }

  /** The linked-list test on SLList: `stackCheck` (push 0, 1, 2; pop until empty), then `queueCheck`. */
  method StackThenQueue() returns (popped: seq<Result<int>>, dequeued: seq<Result<int>>)
    ensures popped == [Ok(2), Ok(1), Ok(0)]
    ensures dequeued == [Ok(0), Ok(1), Ok(2)]
  {
    var l := new SLList<int>();
    popped := StackCheck(l);
    dequeued := QueueCheck(l);
  }

  /** `stackCheck`: push 0, 1, 2, then pop three times. */
  method StackCheck(l: SLList<int>) returns (popped: seq<Result<int>>)
    requires l.Valid() && l.Contents == []
    modifies l.Repr
    ensures l.Valid() && fresh(l.Repr - old(l.Repr)) && l.Contents == []
    ensures popped == [Ok(2), Ok(1), Ok(0)]
  {
    l.Push(0);
    assert l.Contents == [0] && fresh(l.Repr - old(l.Repr));
    l.Push(1);
    assert l.Contents == [1, 0] && fresh(l.Repr - old(l.Repr));
    l.Push(2);
    assert l.Contents == [2, 1, 0] && fresh(l.Repr - old(l.Repr));
    var p0 := l.Pop();
    assert l.Contents == [1, 0] && fresh(l.Repr - old(l.Repr));
    var p1 := l.Pop();
    assert l.Contents == [0] && fresh(l.Repr - old(l.Repr));
    var p2 := l.Pop();
    popped := [p0, p1, p2];
  }

  /** `queueCheck`: enqueue 0, 1, 2, then dequeue three times. */
  method QueueCheck(l: SLList<int>) returns (dequeued: seq<Result<int>>)
    requires l.Valid() && l.Contents == []
    modifies l.Repr
    ensures l.Valid() && fresh(l.Repr - old(l.Repr)) && l.Contents == []
    ensures dequeued == [Ok(0), Ok(1), Ok(2)]
  {
    l.Enqueue(0);
    assert l.Contents == [0] && fresh(l.Repr - old(l.Repr));
    l.Enqueue(1);
    assert l.Contents == [0, 1] && fresh(l.Repr - old(l.Repr));
    l.Enqueue(2);
    assert l.Contents == [0, 1, 2] && fresh(l.Repr - old(l.Repr));
    var d0 := l.Dequeue();
    assert l.Contents == [1, 2] && fresh(l.Repr - old(l.Repr));
    var d1 := l.Dequeue();
    assert l.Contents == [2] && fresh(l.Repr - old(l.Repr));
    var d2 := l.Dequeue();
    dequeued := [d0, d1, d2];
  }
}
