/**
 * ArrayQueue (src/arraylists/ArrayQueue.cpp): a FIFO queue over a circular buffer.
 * The window `[j, j + n)` of slots, taken modulo the buffer length, holds the queue
 * oldest first; the buffer grows when full and is relinearised into max(1, 2n)
 * slots, with `j` reset to 0, whenever it grows or a dequeue leaves it at least
 * three times the element count.
 */
module ArrayListsQueue {
  import opened Wrappers
  import opened Circular

  class ArrayQueue<T(0)> {
    var a: array<T>
    var j: nat
    var n: nat
    ghost var Contents: seq<T>
    ghost var Repr: set<object>

    ghost predicate Valid()
      reads this, Repr
      ensures Valid() ==> this in Repr
    {
      Repr == {this, a} &&
      1 <= a.Length && j < a.Length && n <= a.Length &&
      Contents == Window(a[..], j, n)
    }

    /** A one-slot buffer with `j = 0` and `n = 0` (include/ds/array_lists.h). */
    constructor ()
      ensures Valid() && fresh(Repr)
      ensures Contents == [] && a.Length == 1 && j == 0
    {
      a := new T[1];
      j, n := 0, 0;
      Contents := [];
      Repr := {this, a};
    }

    /** `resize`: the queue, oldest first, from slot 0 of max(1, 2n) fresh slots. */
    method Resize()
      requires Valid()
      modifies Repr
      ensures Valid() && fresh(Repr - old(Repr)) && fresh(a)
      ensures Contents == old(Contents) && n == old(n)
      ensures a.Length == Max(1, 2 * n) && j == 0
    {
      var b := Relinearize(a, j, n);
      a := b;
      j := 0;
      Repr := {this, a};
    }

    method Size() returns (r: nat)
      requires Valid()
      ensures r == |Contents|
    {
      r := n;
    }

    /** `enqueue(x)`: grows when full, then writes `x` just past the window. */
    method Enqueue(x: T)
      requires Valid()
      modifies Repr
      ensures Valid() && fresh(Repr - old(Repr))
      ensures Contents == old(Contents) + [x]
      ensures old(n) + 1 > old(a.Length) ==> a.Length == Max(1, 2 * old(n))
      ensures old(n) + 1 <= old(a.Length) ==> a == old(a) && j == old(j)
    {
      if n + 1 > a.Length {
        Resize();
      }
      WindowAppend(a[..], j, n, x);
      a[Wrap(j + n, a.Length)] := x;
      n := n + 1;
      Contents := Contents + [x];
    }

    /**
     * `dequeue()`: the oldest element; `j` advances one slot (mod length), and the
     * buffer is relinearised when `a.length() >= 3n` afterwards. The source reads
     * an empty queue without checking; here that case reports ListEmpty.
     */
    method Dequeue() returns (r: Result<T>)
      requires Valid()
      modifies Repr
      ensures Valid() && fresh(Repr - old(Repr))
      ensures old(Contents) == [] ==> r == Err(ListEmpty) && Contents == [] && a == old(a) && j == old(j)
      ensures old(Contents) != [] ==> r == Ok(old(Contents)[0]) && Contents == old(Contents)[1..]
      ensures old(Contents) != [] && old(a.Length) >= 3 * (old(n) - 1) ==>
                a.Length == Max(1, 2 * (old(n) - 1)) && j == 0
      ensures old(Contents) != [] && old(a.Length) < 3 * (old(n) - 1) ==>
                a == old(a) && j == Wrap(old(j) + 1, a.Length)
    {
      if n == 0 {
        return Err(ListEmpty);
      }
      r := Ok(a[j]);
      WindowAdvance(a[..], j, n);
      j := Wrap(j + 1, a.Length);
      n := n - 1;
      Contents := Contents[1..];
      if a.Length >= 3 * n {
        Resize();
      }
    }
  }

  /**
   * The fields `(j, n, length)` after `dequeue()` as written, which never tests for
   * an empty queue: advance `j`, decrement `n`, relinearise when `length >= 3n`.
   */
  function DequeueAsWritten(j: nat, n: int, len: nat): (int, int, int)
    requires 0 < len
  {
    var j1 := (j + 1) % len;
    var n1 := n - 1;
    if len >= 3 * n1 then (0, n1, Max(1, 2 * n1)) else (j1, n1, len)
  }

  /**
   * Dequeuing the freshly constructed empty queue as written leaves `n == -1`:
   * `size()` then reports -1, and a `while (queue.size())` drain never stops.
   */
  lemma DequeueEmptyAsWritten()
    ensures DequeueAsWritten(0, 0, 1) == (0, -1, 1)
  {
  }

  /** Enqueuing 0, 1, 2 and dequeuing while `size()` is non-zero gives 0, 1, 2 (FIFO), and then the size is 0. */
  method QueueCheck() returns (out: seq<int>, s: nat)
    ensures out == [0, 1, 2]
    ensures s == 0
  {
    var q := new ArrayQueue<int>();
    q.Enqueue(0);
    q.Enqueue(1);
    q.Enqueue(2);
    var x0 := q.Dequeue();
    var x1 := q.Dequeue();
    var x2 := q.Dequeue();
    out := [x0.value, x1.value, x2.value];
    s := q.Size();
  }
}
