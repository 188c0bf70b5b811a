/**
 * ArrayQueue (src/queues/ArrayQueue.cpp): the FIFO-queue variant behind the
 * `add`/`remove` queue interface. Same circular buffer and resize policy as the
 * arraylists ArrayQueue; `add` reports success with `true`.
 */
module QueuesArrayQueue {
  import opened Wrappers
  import opened Circular

  class ArrayQueue<T(0)> {
    var a: array<T>
    var j: nat
    var n: nat
    ghost var Contents: seq<T>
    ghost var Repr: set<object>

    ghost predicate Valid()
      reads this, Repr
      ensures Valid() ==> this in Repr
    {
      Repr == {this, a} &&
      1 <= a.Length && j < a.Length && n <= a.Length &&
      Contents == Window(a[..], j, n)
    }

    /** One slot, and `j = n = 0`, which include/ds/queues.h leaves uninitialised. */
    constructor ()
      ensures Valid() && fresh(Repr)
      ensures Contents == [] && a.Length == 1 && j == 0
    {
      a := new T[1];
      j, n := 0, 0;
      Contents := [];
      Repr := {this, a};
    }

    /** `resize`: window element `k` moves to slot `k` of max(1, 2n) fresh slots; `j = 0`. */
    method Resize()
      requires Valid()
      modifies Repr
      ensures Valid() && fresh(Repr - old(Repr)) && fresh(a)
      ensures Contents == old(Contents) && n == old(n)
      ensures a.Length == Max(1, 2 * n) && j == 0
    {
      var b := Relinearize(a, j, n);
      a := b;
      j := 0;
      Repr := {this, a};
    }

    /** `add(x)`: always succeeds; `x` goes into slot `(j + n) % length` after a grow when full. */
    method Add(x: T) returns (ok: bool)
      requires Valid()
      modifies Repr
      ensures Valid() && fresh(Repr - old(Repr))
      ensures ok
      ensures Contents == old(Contents) + [x]
      ensures old(n) + 1 > old(a.Length) ==> a.Length == Max(1, 2 * old(n))
      ensures old(n) + 1 <= old(a.Length) ==> a == old(a) && j == old(j)
    {
      if n + 1 > a.Length {
        Resize();
      }
      WindowAppend(a[..], j, n, x);
      a[Wrap(j + n, a.Length)] := x;
      n := n + 1;
      Contents := Contents + [x];
      ok := true;
    }

    /**
     * `remove()`: the oldest element; `j` advances modulo the length and the buffer
     * is relinearised when `a.length() >= 3n`. The source never tests for an empty
     * queue; here that case reports ListEmpty and changes nothing (see
     * `RemoveAsWritten` for what the code as written does).
     */
    method Remove() returns (r: Result<T>)
      requires Valid()
      modifies Repr
      ensures Valid() && fresh(Repr - old(Repr))
      ensures old(Contents) == [] ==> r == Err(ListEmpty) && Contents == [] && a == old(a) && j == old(j)
      ensures old(Contents) != [] ==> r == Ok(old(Contents)[0]) && Contents == old(Contents)[1..]
      ensures old(Contents) != [] && old(a.Length) >= 3 * (old(n) - 1) ==>
                a.Length == Max(1, 2 * (old(n) - 1)) && j == 0
      ensures old(Contents) != [] && old(a.Length) < 3 * (old(n) - 1) ==>
                a == old(a) && j == Wrap(old(j) + 1, a.Length)
    {
      if n == 0 {
        return Err(ListEmpty);
      }
      r := Ok(a[j]);
      WindowAdvance(a[..], j, n);
      j := Wrap(j + 1, a.Length);
      n := n - 1;
      Contents := Contents[1..];
      if a.Length >= 3 * n {
        Resize();
      }
    }
  }

  /** C++ `%`, which truncates toward zero, so a negative dividend gives a non-positive remainder. */
  function CppMod(x: int, m: int): (r: int)
    requires 0 < m
    ensures x >= 0 ==> r == x % m
    ensures x < 0 ==> -m < r <= 0
  {
    if x >= 0 then x % m else -((-x) % m)
  }

  /**
   * `remove()` as written, on the fields `(j, n, length)`: the slot read, then the new
   * `(j, n, length)`. Nothing tests for `n == 0`: slot `j` is read, `j` advances,
   * `n` is decremented and the buffer is relinearised when `length >= 3n`.
   */
  function RemoveAsWritten(j: int, n: int, len: int): (int, int, int, int)
    requires 0 <= j < len
  {
    var j1 := CppMod(j + 1, len);
    var n1 := n - 1;
    if len >= 3 * n1 then (j, 0, n1, Max(1, 2 * n1)) else (j, j1, n1, len)
  }

  /** `add(x)` as written, on `(j, n, length)`: the slot written, then the new `(j, n, length)`. */
  function AddAsWritten(j: int, n: int, len: int): (int, int, int, int)
    requires 0 <= j < len
  {
    if n + 1 > len then (CppMod(n, Max(1, 2 * n)), 0, n + 1, Max(1, 2 * n))
    else (CppMod(j + n, len), j, n + 1, len)
  }

  /**
   * `remove()` on any empty queue as written returns the stale slot `j` and leaves
   * `n == -1` in a one-slot buffer; a following `add(x)` then writes `x` into slot 0
   * but only brings `n` back to 0, so `x` is lost and the queue reads as empty.
   */
  lemma RemoveEmptyAsWritten(j: int, len: int)
    requires 0 <= j < len
    ensures RemoveAsWritten(j, 0, len) == (j, 0, -1, 1)
    ensures AddAsWritten(0, -1, 1) == (0, 0, 0, 1)
  {
    assert CppMod(-1, 1) == 0;
  }

  /** `add(1)`, `add(2)`, `add(3)` and three `remove()` calls give 1, 2, 3. */
  method QueueCheck() returns (added: seq<bool>, out: seq<int>)
    ensures added == [true, true, true]
    ensures out == [1, 2, 3]
  {
    var q := new ArrayQueue<int>();
    var b1 := q.Add(1);
    var b2 := q.Add(2);
    var b3 := q.Add(3);
    added := [b1, b2, b3];
    var x1 := q.Remove();
    var x2 := q.Remove();
    var x3 := q.Remove();
    out := [x1.value, x2.value, x3.value];
  }
}
