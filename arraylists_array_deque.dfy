/**
 * ArrayDeque (src/arraylists/ArrayDeque.cpp): derives from the ArrayQueue of the
 * same directory and adds list, deque and stack operations on the base's circular
 * buffer. The base-class subobject is the field `base`; `resize`, `enqueue` and
 * `dequeue` are the base's own.
 */
module ArrayListsDeque {
  import opened Wrappers
  import opened SeqEdit
  import opened Circular
  import ArrayListsQueue

  class ArrayDeque<T(0)> {
    const base: ArrayListsQueue.ArrayQueue<T>
    ghost var Contents: seq<T>
    ghost var Repr: set<object>

    ghost predicate Valid()
      reads this, Repr
      ensures Valid() ==> this in Repr
    {
      base in Repr && Repr == {this, base, base.a} && base.Repr == {base, base.a} && base.Valid() && Contents == base.Contents
    }

    constructor ()
      ensures Valid() && fresh(Repr)
      ensures Contents == []
    {
      base := new ArrayListsQueue.ArrayQueue<T>();
      new;
      Contents := [];
      Repr := {this, base, base.a};
    }

    method Size() returns (r: nat)
      requires Valid()
      ensures r == |Contents|
    {
      r := base.Size();
    }

    /** `get(i)`: slot `(j + i) % length`; for `i >= n` that slot is outside the list. */
    method Get(i: nat) returns (r: T)
      requires Valid()
      ensures r == base.a[(base.j + i) % base.a.Length]
      ensures i < |Contents| ==> r == Contents[i]
    {
      r := base.a[(base.j + i) % base.a.Length];
      if i < base.n {
        WrapIsMod(base.j + i, base.a.Length);
      }
    }

    /** `set(i, x)`: returns the old value of slot `(j + i) % length` and changes only that slot. */
    method Set(i: nat, x: T) returns (r: T)
      requires Valid()
      modifies Repr
      ensures Valid() && Repr == old(Repr)
      ensures base.a == old(base.a) && base.j == old(base.j) && base.n == old(base.n)
      ensures r == old(base.a[(base.j + i) % base.a.Length])
      ensures base.a[..] == old(base.a[..])[(base.j + i) % base.a.Length := x]
      ensures i < old(|Contents|) ==> r == old(Contents)[i] && Contents == old(Contents)[i := x]
    {
      var b := base.a;
      var index := (base.j + i) % b.Length;
      r := b[index];
      b[index] := x;
      base.Contents := Window(b[..], base.j, base.n);
      Contents := base.Contents;
      if i < base.n {
        WrapIsMod(base.j + i, b.Length);
        forall k | 0 <= k < base.n
          ensures Contents[k] == old(Contents)[i := x][k]
        {
          if k != i {
            WrapIsMod(base.j + k, b.Length);
          }
        }
      }
    }

    /**
     * `add(i, x)`: grows when full; then, if `i < n/2`, `j` steps back one slot and
     * the first `i` elements move back, otherwise the last `n - i` move forward.
     */
    method Add(i: nat, x: T)
      requires Valid() && i <= |Contents|
      modifies Repr
      ensures Valid() && fresh(Repr - old(Repr))
      ensures Contents == Insert(old(Contents), i, x)
      ensures old(base.n) + 1 > old(base.a.Length) ==> base.a.Length == Max(1, 2 * old(base.n))
      ensures old(base.n) + 1 <= old(base.a.Length) ==> base.a == old(base.a)
      ensures var j0 := if old(base.n) + 1 > old(base.a.Length) then 0 else old(base.j);
              base.j == if i < old(base.n) / 2 then (if j0 == 0 then base.a.Length - 1 else j0 - 1) else j0
    {
      if base.n + 1 > base.a.Length {
        base.Resize();
      }
      base.j := InsertAt(base.a, base.j, base.n, i, x);
      base.n := base.n + 1;
      base.Contents := Insert(base.Contents, i, x);
      Contents := base.Contents;
      Repr := {this, base, base.a};
    }

    /**
     * `remove(i)`: returns element `i`; the shorter side moves over the gap, and the
     * buffer is relinearised when `3n < length` afterwards.
     */
    method Remove(i: nat) returns (x: T)
      requires Valid() && i < |Contents|
      modifies Repr
      ensures Valid() && fresh(Repr - old(Repr))
      ensures x == old(Contents)[i]
      ensures Contents == Delete(old(Contents), i)
      ensures 3 * (old(base.n) - 1) < old(base.a.Length) ==>
                base.a.Length == Max(1, 2 * (old(base.n) - 1)) && base.j == 0
      ensures 3 * (old(base.n) - 1) >= old(base.a.Length) ==>
                base.a == old(base.a) &&
                base.j == if i < old(base.n) / 2 then Wrap(old(base.j) + 1, base.a.Length) else old(base.j)
    {
      x, base.j := DeleteAt(base.a, base.j, base.n, i);
      base.n := base.n - 1;
      base.Contents := Delete(base.Contents, i);
      if 3 * base.n < base.a.Length {
        base.Resize();
      }
      Contents := base.Contents;
      Repr := {this, base, base.a};
    }

    /** `enqueue(x)`, inherited: appends at the back. */
    method Enqueue(x: T)
      requires Valid()
      modifies Repr
      ensures Valid() && fresh(Repr - old(Repr))
      ensures Contents == old(Contents) + [x]
    {
      base.Enqueue(x);
      Contents := base.Contents;
      Repr := {this, base, base.a};
    }

    /** `dequeue()`, inherited: the front element, ListEmpty on an empty deque. */
    method Dequeue() returns (r: Result<T>)
      requires Valid()
      modifies Repr
      ensures Valid() && fresh(Repr - old(Repr))
      ensures old(Contents) == [] ==> r == Err(ListEmpty) && Contents == []
      ensures old(Contents) != [] ==> r == Ok(old(Contents)[0]) && Contents == old(Contents)[1..]
    {
      r := base.Dequeue();
      Contents := base.Contents;
      Repr := {this, base, base.a};
    }

    /** `addLast(x)` is `add(n, x)`. */
    method AddLast(x: T)
      requires Valid()
      modifies Repr
      ensures Valid() && fresh(Repr - old(Repr))
      ensures Contents == old(Contents) + [x]
    {
      Add(base.n, x);
    }

    /** `removeLast()` is `remove(n - 1)`. */
    method RemoveLast() returns (x: T)
      requires Valid() && |Contents| > 0
      modifies Repr
      ensures Valid() && fresh(Repr - old(Repr))
      ensures x == old(Contents)[|old(Contents)| - 1]
      ensures Contents == old(Contents)[..|old(Contents)| - 1]
    {
      x := Remove(base.n - 1);
    }

    /** `addFirst(x)` is `add(0, x)`. */
    method AddFirst(x: T)
      requires Valid()
      modifies Repr
      ensures Valid() && fresh(Repr - old(Repr))
      ensures Contents == [x] + old(Contents)
    {
      Add(0, x);
    }

    /** `removeFirst()` is `remove(0)`. */
    method RemoveFirst() returns (x: T)
      requires Valid() && |Contents| > 0
      modifies Repr
      ensures Valid() && fresh(Repr - old(Repr))
      ensures x == old(Contents)[0]
      ensures Contents == old(Contents)[1..]
    {
      x := Remove(0);
    }

    /** `push(x)` is `addFirst(x)`: the top of the stack is index 0. */
    method Push(x: T)
      requires Valid()
      modifies Repr
      ensures Valid() && fresh(Repr - old(Repr))
      ensures Contents == [x] + old(Contents)
    {
      AddFirst(x);
    }

    /** `pop()` is `removeFirst()`. */
    method Pop() returns (x: T)
      requires Valid() && |Contents| > 0
      modifies Repr
      ensures Valid() && fresh(Repr - old(Repr))
      ensures x == old(Contents)[0]
      ensures Contents == old(Contents)[1..]
    {
      x := RemoveFirst();
    }
  }

  /** The first half of `listCheck`: add(0,1), add(0,2), add(0,3) and the three reads. */
  method ListFill(d: ArrayDeque<int>) returns (seen: seq<int>)
    requires d.Valid() && d.Contents == []
    modifies d.Repr
    ensures d.Valid() && fresh(d.Repr - old(d.Repr)) && d.Contents == [3, 2, 1]
    ensures seen == [3, 2, 1]
  {
    d.Add(0, 1);
    d.Add(0, 2);
    assert d.Contents == [2, 1];
    d.Add(0, 3);
    var g0 := d.Get(0);
    var g1 := d.Get(1);
    var g2 := d.Get(2);
    seen := [g0, g1, g2];
  }

  /** The closing loop of `listCheck`: `remove(0)` while `size()` is non-zero. */
  method Drain(d: ArrayDeque<int>)
    requires d.Valid()
    modifies d.Repr
    ensures d.Valid() && fresh(d.Repr - old(d.Repr)) && d.Contents == []
  {
    var size := d.Size();
    while size != 0
      invariant d.Valid() && fresh(d.Repr - old(d.Repr)) && size == |d.Contents|
      decreases size
    {
      var _ := d.Remove(0);
      size := d.Size();
    }
  }

  /** The middle of `listCheck`: `set(0,0)` on 3, 2, 1, then `remove(0)`, reading index 0 after each. */
  method ListSetRemove(d: ArrayDeque<int>) returns (seen: seq<int>)
    requires d.Valid() && d.Contents == [3, 2, 1]
    modifies d.Repr
    ensures d.Valid() && fresh(d.Repr - old(d.Repr)) && d.Contents == [2, 1]
    ensures seen == [0, 2]
  {
    var _ := d.Set(0, 0);
    assert d.Contents == [0, 2, 1];
    var g3 := d.Get(0);
    var _ := d.Remove(0);
    var g4 := d.Get(0);
    seen := [g3, g4];
  }

  /** `listCheck`: reads 3, 2, 1; after set(0,0), 0; after remove(0), 2; then drains. */
  method ListCheck(d: ArrayDeque<int>) returns (seen: seq<int>)
    requires d.Valid() && d.Contents == []
    modifies d.Repr
    ensures d.Valid() && fresh(d.Repr - old(d.Repr)) && d.Contents == []
    ensures seen == [3, 2, 1, 0, 2]
  {
    var filled := ListFill(d);
    var rest := ListSetRemove(d);
    seen := filled + rest;
    Drain(d);
  }

  /** `queueCheck`: enqueue 0, 1, 2, then dequeue until empty. */
  method QueueCheck(d: ArrayDeque<int>) returns (out: seq<Result<int>>)
    requires d.Valid() && d.Contents == []
    modifies d.Repr
    ensures d.Valid() && fresh(d.Repr - old(d.Repr)) && d.Contents == []
    ensures out == [Ok(0), Ok(1), Ok(2)]
  {
    d.Enqueue(0);
    d.Enqueue(1);
    d.Enqueue(2);
    var q0 := d.Dequeue();
    var q1 := d.Dequeue();
    var q2 := d.Dequeue();
    out := [q0, q1, q2];
  }

  /** `stackCheck`: push 0, 1, 2, then pop until empty. */
  method StackCheck(d: ArrayDeque<int>) returns (out: seq<int>)
    requires d.Valid() && d.Contents == []
    modifies d.Repr
    ensures d.Valid() && fresh(d.Repr - old(d.Repr)) && d.Contents == []
    ensures out == [2, 1, 0]
  {
    d.Push(0);
    d.Push(1);
    d.Push(2);
    var s0 := d.Pop();
    var s1 := d.Pop();
    var s2 := d.Pop();
    out := [s0, s1, s2];
  }

  /** The first half of `dequeCheck`: addLast 0, 1, 2, then addFirst 3, 4, 5. */
  method DequeFill(d: ArrayDeque<int>)
    requires d.Valid() && d.Contents == []
    modifies d.Repr
    ensures d.Valid() && fresh(d.Repr - old(d.Repr)) && d.Contents == [5, 4, 3, 0, 1, 2]
  {
    FillBack(d);
    FillFront(d);
  }

  /** The first half of the fill: addLast 0, 1, 2. */
  method FillBack(d: ArrayDeque<int>)
    requires d.Valid() && d.Contents == []
    modifies d.Repr
    ensures d.Valid() && fresh(d.Repr - old(d.Repr)) && d.Contents == [0, 1, 2]
  {
    d.AddLast(0);
    d.AddLast(1);
    d.AddLast(2);
  }

  /** The second half of the fill: addFirst 3, 4, 5. */
  method FillFront(d: ArrayDeque<int>)
    requires d.Valid() && d.Contents == [0, 1, 2]
    modifies d.Repr
    ensures d.Valid() && fresh(d.Repr - old(d.Repr)) && d.Contents == [5, 4, 3, 0, 1, 2]
  {
    d.AddFirst(3);
    d.AddFirst(4);
    d.AddFirst(5);
  }

  /** `dequeCheck`: after the fill, removeFirst twice gives 5, 4 and removeLast four times 2, 1, 0, 3. */
  method DequeCheck(d: ArrayDeque<int>) returns (out: seq<int>)
    requires d.Valid() && d.Contents == []
    modifies d.Repr
    ensures d.Valid() && fresh(d.Repr - old(d.Repr)) && d.Contents == []
    ensures out == [5, 4, 2, 1, 0, 3]
  {
    DequeFill(d);
    var e0, e1 := TakeFront(d);
    var rest := TakeBack(d);
    out := [e0, e1] + rest;
  }

  /** removeFirst twice on the filled deque. */
  method TakeFront(d: ArrayDeque<int>) returns (e0: int, e1: int)
    requires d.Valid() && d.Contents == [5, 4, 3, 0, 1, 2]
    modifies d.Repr
    ensures d.Valid() && fresh(d.Repr - old(d.Repr)) && d.Contents == [3, 0, 1, 2]
    ensures e0 == 5 && e1 == 4
  {
    e0 := d.RemoveFirst();
    e1 := d.RemoveFirst();
  }

  /** removeLast until the deque is empty. */
  method TakeBack(d: ArrayDeque<int>) returns (out: seq<int>)
    requires d.Valid() && d.Contents == [3, 0, 1, 2]
    modifies d.Repr
    ensures d.Valid() && fresh(d.Repr - old(d.Repr)) && d.Contents == []
    ensures out == [2, 1, 0, 3]
  {
    var e2 := d.RemoveLast();
    var e3 := d.RemoveLast();
    var e4 := d.RemoveLast();
    var e5 := d.RemoveLast();
    out := [e2, e3, e4, e5];
  }

  /** The four checks run in turn on one ArrayDeque object; each leaves it empty. */
  method ChecksInOrder()
    returns (list: seq<int>, queue: seq<Result<int>>, stack: seq<int>, deque: seq<int>)
    ensures list == [3, 2, 1, 0, 2]
    ensures queue == [Ok(0), Ok(1), Ok(2)]
    ensures stack == [2, 1, 0]
    ensures deque == [5, 4, 2, 1, 0, 3]
  {
    var d := new ArrayDeque<int>();
    list := ListCheck(d);
    queue := QueueCheck(d);
    stack := StackCheck(d);
    deque := DequeCheck(d);
  }
}
