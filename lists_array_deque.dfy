/**
 * ArrayDeque (src/lists/ArrayDeque.cpp): a list over a circular buffer. Logical
 * index `i` lives in slot `(j + i) % length`; `add` and `remove` shift whichever
 * side of `i` is shorter, and `resize` relinearises the list from slot 0.
 */
module ListsArrayDeque {
  import opened Wrappers
  import opened SeqEdit
  import opened Circular

  class ArrayDeque<T(0)> {
    var a: array<T>
    var j: nat
    var n: nat
    ghost var Contents: seq<T>
    ghost var Repr: set<object>

    ghost predicate Valid()
      reads this, Repr
      ensures Valid() ==> this in Repr
    {
      Repr == {this, a} &&
      1 <= a.Length && j < a.Length && n <= a.Length &&
      Contents == Window(a[..], j, n)
    }

    /** One slot, and `j = n = 0`, which include/ds/lists.h leaves uninitialised. */
    constructor ()
      ensures Valid() && fresh(Repr)
      ensures Contents == [] && a.Length == 1 && j == 0
    {
      a := new T[1];
      j, n := 0, 0;
      Contents := [];
      Repr := {this, a};
    }

    /** `resize`: capacity max(1, 2n), `j = 0`, same list. */
    method Resize()
      requires Valid()
      modifies Repr
      ensures Valid() && fresh(Repr - old(Repr)) && fresh(a)
      ensures Contents == old(Contents) && n == old(n)
      ensures a.Length == Max(1, 2 * n) && j == 0
    {
      var b := Relinearize(a, j, n);
      a := b;
      j := 0;
      Repr := {this, a};
    }

    method Size() returns (r: nat)
      requires Valid()
      ensures r == |Contents|
    {
      r := n;
    }

    /** `get(i)`: slot `(j + i) % length`; for `i >= n` that slot is outside the list. */
    method Get(i: nat) returns (r: T)
      requires Valid()
      ensures r == a[(j + i) % a.Length]
      ensures i < |Contents| ==> r == Contents[i]
    {
      r := a[(j + i) % a.Length];
      if i < n {
        WrapIsMod(j + i, a.Length);
      }
    }

    /** `set(i, x)`: returns the old value of slot `(j + i) % length` and changes only that slot. */
    method Set(i: nat, x: T) returns (r: T)
      requires Valid()
      modifies Repr
      ensures Valid() && Repr == old(Repr) && a == old(a) && j == old(j) && n == old(n)
      ensures r == old(a[(j + i) % a.Length])
      ensures a[..] == old(a[..])[(j + i) % a.Length := x]
      ensures i < old(|Contents|) ==> r == old(Contents)[i] && Contents == old(Contents)[i := x]
    {
      var slot := (j + i) % a.Length;
      r := a[slot];
      a[slot] := x;
      Contents := Window(a[..], j, n);
      if i < n {
        WrapIsMod(j + i, a.Length);
        forall k | 0 <= k < n
          ensures Contents[k] == old(Contents)[i := x][k]
        {
          if k != i {
            WrapIsMod(j + k, a.Length);
          }
        }
      }
    }

    /**
     * `add(i, x)`: grows when full; then, if `i < n/2`, `j` steps back one slot and
     * the first `i` elements move back, otherwise the last `n - i` move forward.
     */
    method Add(i: nat, x: T)
      requires Valid() && i <= |Contents|
      modifies Repr
      ensures Valid() && fresh(Repr - old(Repr))
      ensures Contents == Insert(old(Contents), i, x)
      ensures old(n) + 1 > old(a.Length) ==> a.Length == Max(1, 2 * old(n))
      ensures old(n) + 1 <= old(a.Length) ==> a == old(a)
      ensures var j0 := if old(n) + 1 > old(a.Length) then 0 else old(j);
              j == if i < old(n) / 2 then (if j0 == 0 then a.Length - 1 else j0 - 1) else j0
    {
      if n + 1 > a.Length {
        Resize();
      }
      j := InsertAt(a, j, n, i, x);
      n := n + 1;
      Contents := Insert(Contents, i, x);
    }

    /**
     * `remove(i)`: returns element `i`; if `i < n/2` the elements before it move
     * forward and `j` advances, otherwise the elements after it move back. The buffer
     * is relinearised when `3n < length` afterwards.
     */
    method Remove(i: nat) returns (x: T)
      requires Valid() && i < |Contents|
      modifies Repr
      ensures Valid() && fresh(Repr - old(Repr))
      ensures x == old(Contents)[i]
      ensures Contents == Delete(old(Contents), i)
      ensures 3 * (old(n) - 1) < old(a.Length) ==> a.Length == Max(1, 2 * (old(n) - 1)) && j == 0
      ensures 3 * (old(n) - 1) >= old(a.Length) ==>
                a == old(a) && j == if i < old(n) / 2 then Wrap(old(j) + 1, a.Length) else old(j)
    {
      x, j := DeleteAt(a, j, n, i);
      n := n - 1;
      Contents := Delete(Contents, i);
      if 3 * n < a.Length {
        Resize();
      }
    }
  }

  /**
   * The trace documented at the head of the file, `add(0,a)`, `add(1,b)`, `add(2,c)`,
   * `add(3,d)`, `remove(1)`, `add(1,e)`, `add(3,f)`, `remove(3)`, `add(1,g)`,
   * leaves the list a, g, e, c, d.
   */
  method DocumentedTrace() returns (out: seq<char>)
    ensures out == ['a', 'g', 'e', 'c', 'd']
  {
    var d := new ArrayDeque<char>();
    TraceOpening(d);
    TraceClosing(d);
    var c0 := d.Get(0);
    var c1 := d.Get(1);
    var c2 := d.Get(2);
    var c3 := d.Get(3);
    var c4 := d.Get(4);
    out := [c0, c1, c2, c3, c4];
  }

  /** The trace's four appends: a, b, c, d. */
  method TraceAppends(d: ArrayDeque<char>)
    requires d.Valid() && d.Contents == []
    modifies d.Repr
    ensures d.Valid() && fresh(d.Repr - old(d.Repr)) && d.Contents == ['a', 'b', 'c', 'd']
  {
    d.Add(0, 'a');
    d.Add(1, 'b');
    assert d.Contents == ['a', 'b'];
    d.Add(2, 'c');
    assert d.Contents == ['a', 'b', 'c'];
    d.Add(3, 'd');
  }

  /** The trace up to `add(1,e)`: a, e, c, d. */
  method TraceOpening(d: ArrayDeque<char>)
    requires d.Valid() && d.Contents == []
    modifies d.Repr
    ensures d.Valid() && fresh(d.Repr - old(d.Repr)) && d.Contents == ['a', 'e', 'c', 'd']
  {
    TraceAppends(d);
    var _ := d.Remove(1);
    assert d.Contents == ['a', 'c', 'd'];
    d.Add(1, 'e');
  }

  /** The rest of the trace, `add(3,f)`, `remove(3)`, `add(1,g)`: a, g, e, c, d. */
  method TraceClosing(d: ArrayDeque<char>)
    requires d.Valid() && d.Contents == ['a', 'e', 'c', 'd']
    modifies d.Repr
    ensures d.Valid() && fresh(d.Repr - old(d.Repr)) && d.Contents == ['a', 'g', 'e', 'c', 'd']
  {
    d.Add(3, 'f');
    assert d.Contents == ['a', 'e', 'c', 'f', 'd'];
    var _ := d.Remove(3);
    assert d.Contents == ['a', 'e', 'c', 'd'];
    d.Add(1, 'g');
  }


  /** `add(0,1)`, `add(0,2)`, `add(0,3)` reads 3, 2, 1; after `set(0,0)` and `remove(0)`, index 0 holds 2. */
  method ListCheck() returns (before: seq<int>, setOld: int, removed: int, after: int)
    ensures before == [3, 2, 1] && setOld == 3 && removed == 0 && after == 2
  {
    var d := new ArrayDeque<int>();
    d.Add(0, 1);
    d.Add(0, 2);
    d.Add(0, 3);
    var g0 := d.Get(0);
    var g1 := d.Get(1);
    var g2 := d.Get(2);
    before := [g0, g1, g2];
    setOld := d.Set(0, 0);
    removed := d.Remove(0);
    after := d.Get(0);
  }
}
