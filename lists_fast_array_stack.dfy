/**
 * FastArrayStack (src/lists/FastArrayStack.cpp): the same list as ArrayStack, with
 * the block moves done by `std::copy` and `std::copy_backward`. Both are written
 * here as the element-by-element loops they perform.
 */
module ListsFastArrayStack {
  import opened Wrappers
  import opened SeqEdit

  class FastArrayStack<T(0)> {
    var a: array<T>
    var n: nat
    ghost var Contents: seq<T>
    ghost var Repr: set<object>

    ghost predicate Valid()
      reads this, Repr
      ensures Valid() ==> this in Repr
    {
      Repr == {this, a} &&
      1 <= a.Length && n <= a.Length &&
      Contents == a[..n]
    }

    constructor ()
      ensures Valid() && fresh(Repr)
      ensures Contents == [] && a.Length == 1
    {
      a := new T[1];
      n := 0;
      Contents := [];
      Repr := {this, a};
    }

    /** `resize`: `std::copy(&a[0], &a[0] + n, &b[0])` into max(2n, 1) fresh slots. */
    method Resize()
      requires Valid()
      modifies Repr
      ensures Valid() && fresh(Repr - old(Repr)) && fresh(a)
      ensures Contents == old(Contents) && n == old(n)
      ensures a.Length == Max(2 * n, 1)
    {
      var b := new T[Max(2 * n, 1)];
      var src, dst := 0, 0;
      while src < n
        invariant src == dst <= n
        invariant b[..dst] == a[..src]
        modifies b
      {
        b[dst] := a[src];
        src, dst := src + 1, dst + 1;
      }
      a := b;
      Repr := {this, a};
    }

    method Size() returns (r: nat)
      requires Valid()
      ensures r == |Contents|
    {
      r := n;
    }

    /** `get(i)`: checked against the backing buffer, as in ArrayStack. */
    method Get(i: int) returns (r: Result<T>)
      requires Valid()
      ensures 0 <= i < |Contents| ==> r == Ok(Contents[i])
      ensures 0 <= i < a.Length ==> r == Ok(a[i])
      ensures !(0 <= i < a.Length) ==> r == Err(IndexOutOfBounds)
    {
      if 0 <= i < a.Length {
        r := Ok(a[i]);
      } else {
        r := Err(IndexOutOfBounds);
      }
    }

    /** `set(i, x)`: returns the old value and touches only slot `i`. */
    method Set(i: int, x: T) returns (r: Result<T>)
      requires Valid()
      modifies Repr
      ensures Valid() && Repr == old(Repr) && a == old(a) && n == old(n)
      ensures 0 <= i < a.Length ==> r == Ok(old(a[i])) && a[..] == old(a[..])[i := x]
      ensures 0 <= i < old(|Contents|) ==> Contents == old(Contents)[i := x]
      ensures old(|Contents|) <= i < a.Length ==> Contents == old(Contents)
      ensures !(0 <= i < a.Length) ==> r == Err(IndexOutOfBounds) && a[..] == old(a[..]) && Contents == old(Contents)
    {
      if 0 <= i < a.Length {
        r := Ok(a[i]);
        a[i] := x;
        if i < n {
          Contents := Contents[i := x];
        } else {
          assert a[..n] == old(a[..n]);
        }
      } else {
        r := Err(IndexOutOfBounds);
      }
    }

    /**
     * `add(i, x)`: grows when full, then `std::copy_backward(&a[i], &a[0] + n, &a[0] + n + 1)`
     * moves `[i, n)` up one slot starting from the last element, and `x` is written at `i`.
     */
    method Add(i: int, x: T)
      requires Valid() && 0 <= i <= |Contents|
      modifies Repr
      ensures Valid() && fresh(Repr - old(Repr))
      ensures Contents == Insert(old(Contents), i, x)
      ensures a.Length == if old(n) + 1 > old(a.Length) then Max(2 * old(n), 1) else old(a.Length)
    {
      if n + 1 > a.Length {
        Resize();
      }
      ghost var s := Contents;
      var last := n;
      while last > i
        invariant i <= last <= n < a.Length
        invariant forall k :: 0 <= k < last ==> a[k] == s[k]
        invariant forall k :: last < k <= n ==> a[k] == s[k - 1]
        modifies a
      {
        last := last - 1;
        a[last + 1] := a[last];
      }
      a[i] := x;
      n := n + 1;
      Contents := Insert(s, i, x);
    }

    /** `remove(i)`: as in ArrayStack, including the shrink when `a.length() >= 3n`. */
    method Remove(i: int) returns (x: T)
      requires Valid() && 0 <= i < |Contents|
      modifies Repr
      ensures Valid() && fresh(Repr - old(Repr))
      ensures x == old(Contents)[i]
      ensures Contents == Delete(old(Contents), i)
      ensures a.Length == if old(a.Length) >= 3 * (old(n) - 1) then Max(2 * (old(n) - 1), 1) else old(a.Length)
    {
      x := a[i];
      ghost var s := Contents;
      var j := i;
      while j < n - 1
        invariant i <= j <= n - 1
        invariant forall k :: 0 <= k < i ==> a[k] == s[k]
        invariant forall k :: i <= k < j ==> a[k] == s[k + 1]
        invariant forall k :: j < k < n ==> a[k] == s[k]
        modifies a
      {
        a[j] := a[j + 1];
        j := j + 1;
      }
      n := n - 1;
      Contents := Delete(s, i);
      if a.Length >= 3 * n {
        Resize();
      }
    }
  }

  /** `listCheck`: add(0,1), add(0,2), add(0,3) reads 3, 2, 1; after set(0,0), 0; after remove(0), 2. */
  method ListCheck() returns (seen: seq<Result<int>>)
    ensures seen == [Ok(3), Ok(2), Ok(1), Ok(0), Ok(2)]
  {
    var s := new FastArrayStack<int>();
    s.Add(0, 1);
    s.Add(0, 2);
    assert s.Contents == [2, 1];
    s.Add(0, 3);
    var g0 := s.Get(0);
    var g1 := s.Get(1);
    var g2 := s.Get(2);
    var _ := s.Set(0, 0);
    assert s.Contents == [0, 2, 1];
    var g3 := s.Get(0);
    var _ := s.Remove(0);
    var g4 := s.Get(0);
    seen := [g0, g1, g2, g3, g4];
  }
}
