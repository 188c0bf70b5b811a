/**
 * ArrayStack (src/lists/ArrayStack.cpp): a growable list over one backing array.
 * `add` and `remove` shift the tail of the live prefix; the buffer grows to
 * max(2n, 1) slots when full and shrinks to max(2n, 1) when a removal leaves it
 * at least three times larger than the element count.
 */
module ListsArrayStack {
  import opened Wrappers
  import opened SeqEdit

  class ArrayStack<T(0)> {
    var a: array<T>
    var n: nat
    /** The list as callers see it: the first `n` slots of `a`. */
    ghost var Contents: seq<T>
    ghost var Repr: set<object>

    ghost predicate Valid()
      reads this, Repr
      ensures Valid() ==> this in Repr
    {
      Repr == {this, a} &&
      1 <= a.Length && n <= a.Length &&
      Contents == a[..n]
    }

    /** The default `Array<T> a` member has one slot; `n = 0` (include/ds/lists.h). */
    constructor ()
      ensures Valid() && fresh(Repr)
      ensures Contents == [] && a.Length == 1
    {
      a := new T[1];
      n := 0;
      Contents := [];
      Repr := {this, a};
    }

    /** `resize`: a fresh buffer of max(2n, 1) slots holding the same list. */
    method Resize()
      requires Valid()
      modifies Repr
      ensures Valid() && fresh(Repr - old(Repr)) && fresh(a)
      ensures Contents == old(Contents) && n == old(n)
      ensures a.Length == Max(2 * n, 1)
    {
      var b := new T[Max(2 * n, 1)];
      for i := 0 to n
        invariant b[..i] == a[..i]
        modifies b
      {
        b[i] := a[i];
      }
      a := b;
      Repr := {this, a};
    }

    /** `size()`. */
    method Size() returns (r: nat)
      requires Valid()
      ensures r == |Contents|
    {
      r := n;
    }

    /**
     * `get(i)`: bounds are checked against the backing buffer, not against `n`,
     * so an index in `[n, a.Length)` reads a slot outside the list.
     */
    method Get(i: int) returns (r: Result<T>)
      requires Valid()
      ensures 0 <= i < |Contents| ==> r == Ok(Contents[i])
      ensures 0 <= i < a.Length ==> r == Ok(a[i])
      ensures !(0 <= i < a.Length) ==> r == Err(IndexOutOfBounds)
    {
      if 0 <= i < a.Length {
        r := Ok(a[i]);
      } else {
        r := Err(IndexOutOfBounds);
      }
    }

    /** `set(i, x)`: returns the previous element `i` and changes only that position. */
    method Set(i: int, x: T) returns (r: Result<T>)
      requires Valid()
      modifies Repr
      ensures Valid() && Repr == old(Repr) && a == old(a) && n == old(n)
      ensures 0 <= i < a.Length ==> r == Ok(old(a[i])) && a[..] == old(a[..])[i := x]
      ensures 0 <= i < old(|Contents|) ==> Contents == old(Contents)[i := x]
      ensures old(|Contents|) <= i < a.Length ==> Contents == old(Contents)
      ensures !(0 <= i < a.Length) ==> r == Err(IndexOutOfBounds) && a[..] == old(a[..]) && Contents == old(Contents)
    {
      if 0 <= i < a.Length {
        r := Ok(a[i]);
        a[i] := x;
        if i < n {
          Contents := Contents[i := x];
        } else {
          assert a[..n] == old(a[..n]);
        }
      } else {
        r := Err(IndexOutOfBounds);
      }
    }

    /** `add(i, x)`: grows first when full, then shifts `[i, n)` up one slot and writes `x` at `i`. */
    method Add(i: int, x: T)
      requires Valid() && 0 <= i <= |Contents|
      modifies Repr
      ensures Valid() && fresh(Repr - old(Repr))
      ensures Contents == Insert(old(Contents), i, x)
      ensures a.Length == if old(n) + 1 > old(a.Length) then Max(2 * old(n), 1) else old(a.Length)
    {
      if n + 1 > a.Length {
        Resize();
      }
      ghost var s := Contents;
      ShiftUp(i);
      a[i] := x;
      assert a[..n + 1] == Insert(s, i, x);
      n := n + 1;
      Contents := Insert(s, i, x);
    }

    /** The loop of `add`: moves `a[i..n)` one slot up, leaving `a[..i)` in place. */
    method ShiftUp(i: nat)
      requires Valid() && i <= n < a.Length
      modifies a
      ensures forall k :: 0 <= k < i ==> a[k] == Contents[k]
      ensures forall k :: i < k <= n ==> a[k] == Contents[k - 1]
    {
      ghost var s := Contents;
      var j := n;
      while j > i
        invariant i <= j <= n < a.Length
        invariant forall k :: 0 <= k < j ==> a[k] == s[k]
        invariant forall k :: j < k <= n ==> a[k] == s[k - 1]
        modifies a
      {
        a[j] := a[j - 1];
        j := j - 1;
      }
    }

    /**
     * `remove(i)`: returns element `i`, shifts `(i, n)` down one slot, and
     * resizes when the buffer is at least three times the new count.
     */
    method Remove(i: int) returns (x: T)
      requires Valid() && 0 <= i < |Contents|
      modifies Repr
      ensures Valid() && fresh(Repr - old(Repr))
      ensures x == old(Contents)[i]
      ensures Contents == Delete(old(Contents), i)
      ensures a.Length == if old(a.Length) >= 3 * (old(n) - 1) then Max(2 * (old(n) - 1), 1) else old(a.Length)
    {
      x := a[i];
      ghost var s := Contents;
      var j := i;
      while j < n - 1
        invariant i <= j <= n - 1
        invariant forall k :: 0 <= k < i ==> a[k] == s[k]
        invariant forall k :: i <= k < j ==> a[k] == s[k + 1]
        invariant forall k :: j < k < n ==> a[k] == s[k]
        modifies a
      {
        a[j] := a[j + 1];
        j := j + 1;
      }
      n := n - 1;
      Contents := Delete(s, i);
      if a.Length >= 3 * n {
        Resize();
      }
    }
  }

  /** `listCheck`: add(0,1), add(0,2), add(0,3) reads 3, 2, 1; after set(0,0), 0; after remove(0), 2. */
  method ListCheck() returns (seen: seq<Result<int>>)
    ensures seen == [Ok(3), Ok(2), Ok(1), Ok(0), Ok(2)]
  {
    var s := new ArrayStack<int>();
    s.Add(0, 1);
    s.Add(0, 2);
    assert s.Contents == [2, 1];
    s.Add(0, 3);
    var g0 := s.Get(0);
    var g1 := s.Get(1);
    var g2 := s.Get(2);
    var _ := s.Set(0, 0);
    assert s.Contents == [0, 2, 1];
    var g3 := s.Get(0);
    var _ := s.Remove(0);
    var g4 := s.Get(0);
    seen := [g0, g1, g2, g3, g4];
  }
}
