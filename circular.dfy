/**
 * The circular window shared by the two ArrayQueues and the two ArrayDeques:
 * logical element `k` of a window starting at `j` lives in slot `(j + k) % length`.
 * The relinearising copy of their `resize` and the shortest-side shifts of the
 * deques' `add` and `remove` are defined here once.
 */
module Circular {
  import opened Wrappers
  import opened SeqEdit

  /** `x % len` for the indices the containers form: they never wrap more than once. */
  function Wrap(x: nat, len: nat): (r: nat)
    requires 0 < len && x < 2 * len
    ensures r < len
  {
    if x < len then x else x - len
  }

  /** `Wrap` is the source's `%` on these indices. */
  lemma WrapIsMod(x: nat, len: nat)
    requires 0 < len && x < 2 * len
    ensures Wrap(x, len) == x % len
  {
    if x >= len {
      assert x == 1 * len + (x - len);
    }
  }

  /** The `n` live elements of a buffer whose window starts at slot `j`. */
  function Window<T>(s: seq<T>, j: nat, n: nat): (w: seq<T>)
    requires j < |s| && n <= |s|
    ensures |w| == n
    ensures forall k :: 0 <= k < n ==> w[k] == s[Wrap(j + k, |s|)]
  {
    seq(n, k requires 0 <= k < n => s[Wrap(j + k, |s|)])
  }

  /** A window that starts at slot 0 is the buffer's prefix. */
  lemma WindowAtZero<T>(s: seq<T>, n: nat)
    requires 0 < |s| && n <= |s|
    ensures Window(s, 0, n) == s[..n]
  {
  }

  /** Writing `x` into the first free slot after a non-full window appends `x` to it. */
  lemma WindowAppend<T>(s: seq<T>, j: nat, n: nat, x: T)
    requires j < |s| && n < |s|
    ensures Window(s[Wrap(j + n, |s|) := x], j, n + 1) == Window(s, j, n) + [x]
  {
    var t := s[Wrap(j + n, |s|) := x];
    forall k | 0 <= k < n
      ensures Window(t, j, n + 1)[k] == Window(s, j, n)[k]
    {
      assert Wrap(j + k, |s|) != Wrap(j + n, |s|);
    }
  }

  /** Advancing the start by one slot drops the oldest element of the window. */
  lemma WindowAdvance<T>(s: seq<T>, j: nat, n: nat)
    requires j < |s| && 0 < n <= |s|
    ensures Wrap(j + 1, |s|) < |s|
    ensures Window(s, Wrap(j + 1, |s|), n - 1) == Window(s, j, n)[1..]
  {
  }

  /**
   * The copy loop of `resize`: window element `k` moves to slot `k` of a fresh
   * buffer of max(1, 2n) slots.
   */
  method Relinearize<T(0)>(a: array<T>, j: nat, n: nat) returns (b: array<T>)
    requires j < a.Length && n <= a.Length
    ensures fresh(b) && b.Length == Max(1, 2 * n)
    ensures Window(b[..], 0, n) == Window(a[..], j, n)
  {
    b := new T[Max(1, 2 * n)];
    for k := 0 to n
      invariant forall p :: 0 <= p < k ==> b[p] == a[Wrap(j + p, a.Length)]
      modifies b
    {
      b[k] := a[Wrap(j + k, a.Length)];
    }
  }

  /**
   * The shifting part of a deque's `add(i, x)` on a buffer with a free slot: when
   * `i < n/2` the start moves back one slot and the first `i` elements move back
   * with it; otherwise the last `n - i` elements move forward. Either way `x` lands
   * at logical index `i`, and at most min(i, n - i) elements move.
   */
  method InsertAt<T>(a: array<T>, j: nat, n: nat, i: nat, x: T) returns (j': nat)
    requires j < a.Length && n < a.Length && i <= n
    modifies a
    ensures j' < a.Length
    ensures j' == if i < n / 2 then (if j == 0 then a.Length - 1 else j - 1) else j
    ensures Window(a[..], j', n + 1) == Insert(Window(old(a[..]), j, n), i, x)
  {
    var len := a.Length;
    ghost var w := Window(a[..], j, n);
    if i < n / 2 {
      j' := if j == 0 then len - 1 else j - 1;
      ShiftFirstBack(a, j', n, i, w);
    } else {
      j' := j;
      ShiftLastForward(a, j, n, i, w);
    }
    ghost var b := a[..];
    WindowAfterShift(b, j', n, i, x, w);
    a[Wrap(j' + i, len)] := x;
    assert a[..] == b[Wrap(j' + i, len) := x];
  }

  /**
   * Once the elements before index `i` sit at the start `j'` and those from `i` on
   * sit one slot further, writing `x` into the gap yields the window with `x`
   * inserted at index `i`.
   */
  lemma WindowAfterShift<T>(b: seq<T>, j': nat, n: nat, i: nat, x: T, w: seq<T>)
    requires j' < |b| && n < |b| && i <= n && |w| == n
    requires forall p :: 0 <= p < i ==> b[Wrap(j' + p, |b|)] == w[p]
    requires forall q :: i <= q < n ==> b[Wrap(j' + q + 1, |b|)] == w[q]
    ensures Window(b[Wrap(j' + i, |b|) := x], j', n + 1) == Insert(w, i, x)
  {
    var len := |b|;
    var t := b[Wrap(j' + i, len) := x];
    forall p | 0 <= p < n + 1
      ensures Window(t, j', n + 1)[p] == Insert(w, i, x)[p]
    {
      if p < i {
        assert Wrap(j' + p, len) != Wrap(j' + i, len);
      } else if p > i {
        assert Wrap(j' + (p - 1) + 1, len) != Wrap(j' + i, len);
      }
    }
  }

  /** The loop of `add` when `i < n/2`: logical elements `[0, i)` move back one slot to the new start `j'`. */
  method ShiftFirstBack<T>(a: array<T>, j': nat, n: nat, i: nat, ghost w: seq<T>)
    requires j' < a.Length && n < a.Length && i <= n && |w| == n
    requires forall q :: 0 <= q < n ==> a[Wrap(j' + q + 1, a.Length)] == w[q]
    modifies a
    ensures forall p :: 0 <= p < i ==> a[Wrap(j' + p, a.Length)] == w[p]
    ensures forall q :: i <= q < n ==> a[Wrap(j' + q + 1, a.Length)] == w[q]
  {
    var len := a.Length;
    for k := 0 to i
      invariant forall p :: 0 <= p < k ==> a[Wrap(j' + p, len)] == w[p]
      invariant forall q :: k <= q < n ==> a[Wrap(j' + q + 1, len)] == w[q]
    {
      a[Wrap(j' + k, len)] := a[Wrap(j' + k + 1, len)];
    }
  }

  /** The loop of `add` when `i >= n/2`: logical elements `[i, n)` move forward one slot. */
  method ShiftLastForward<T>(a: array<T>, j: nat, n: nat, i: nat, ghost w: seq<T>)
    requires j < a.Length && n < a.Length && i <= n && |w| == n
    requires forall p :: 0 <= p < n ==> a[Wrap(j + p, a.Length)] == w[p]
    modifies a
    ensures forall p :: 0 <= p < i ==> a[Wrap(j + p, a.Length)] == w[p]
    ensures forall q :: i <= q < n ==> a[Wrap(j + q + 1, a.Length)] == w[q]
  {
    var len := a.Length;
    var k := n;
    while k > i
      invariant i <= k <= n
      invariant forall p :: 0 <= p < k ==> a[Wrap(j + p, len)] == w[p]
      invariant forall q :: k <= q < n ==> a[Wrap(j + q + 1, len)] == w[q]
    {
      a[Wrap(j + k, len)] := a[Wrap(j + k - 1, len)];
      k := k - 1;
    }
  }

  /**
   * The shifting part of a deque's `remove(i)`: when `i < n/2` the elements before
   * `i` move forward and the start advances one slot; otherwise the elements after
   * `i` move back. Returns the removed element and the new start.
   */
  method DeleteAt<T>(a: array<T>, j: nat, n: nat, i: nat) returns (x: T, j': nat)
    requires j < a.Length && n <= a.Length && i < n
    modifies a
    ensures x == Window(old(a[..]), j, n)[i]
    ensures j' < a.Length
    ensures j' == if i < n / 2 then Wrap(j + 1, a.Length) else j
    ensures Window(a[..], j', n - 1) == Delete(Window(old(a[..]), j, n), i)
  {
    var len := a.Length;
    ghost var w := Window(a[..], j, n);
    x := a[Wrap(j + i, len)];
    if i < n / 2 {
      ShiftFirstForward(a, j, n, i, w);
      j' := Wrap(j + 1, len);
      forall p | 0 <= p < n - 1
        ensures Window(a[..], j', n - 1)[p] == Delete(w, i)[p]
      {
        assert Wrap(j' + p, len) == Wrap(j + p + 1, len);
      }
    } else {
      j' := j;
      ShiftLastBack(a, j, n, i, w);
    }
    assert Window(a[..], j', n - 1) == Delete(w, i);
  }

  /** The loop of `remove` when `i < n/2`: logical elements `[0, i)` move forward one slot. */
  method ShiftFirstForward<T>(a: array<T>, j: nat, n: nat, i: nat, ghost w: seq<T>)
    requires j < a.Length && n <= a.Length && i < n && |w| == n
    requires forall p :: 0 <= p < n ==> a[Wrap(j + p, a.Length)] == w[p]
    modifies a
    ensures forall q :: 0 <= q < i ==> a[Wrap(j + q + 1, a.Length)] == w[q]
    ensures forall p :: i < p < n ==> a[Wrap(j + p, a.Length)] == w[p]
  {
    var len := a.Length;
    var k := i;
    while k > 0
      invariant 0 <= k <= i
      invariant forall p :: 0 <= p <= k ==> a[Wrap(j + p, len)] == w[p]
      invariant forall q :: k <= q < i ==> a[Wrap(j + q + 1, len)] == w[q]
      invariant forall p :: i < p < n ==> a[Wrap(j + p, len)] == w[p]
    {
      a[Wrap(j + k, len)] := a[Wrap(j + k - 1, len)];
      k := k - 1;
    }
  }

  /** The loop of `remove` when `i >= n/2`: logical elements `(i, n)` move back one slot. */
  method ShiftLastBack<T>(a: array<T>, j: nat, n: nat, i: nat, ghost w: seq<T>)
    requires j < a.Length && n <= a.Length && i < n && |w| == n
    requires forall p :: 0 <= p < n ==> a[Wrap(j + p, a.Length)] == w[p]
    modifies a
    ensures forall p :: 0 <= p < i ==> a[Wrap(j + p, a.Length)] == w[p]
    ensures forall q :: i < q < n ==> a[Wrap(j + q - 1, a.Length)] == w[q]
  {
    var len := a.Length;
    for k := i to n - 1
      invariant forall p :: 0 <= p < i ==> a[Wrap(j + p, len)] == w[p]
      invariant forall q :: i < q <= k ==> a[Wrap(j + q - 1, len)] == w[q]
      invariant forall p :: k < p < n ==> a[Wrap(j + p, len)] == w[p]
    {
      a[Wrap(j + k, len)] := a[Wrap(j + k + 1, len)];
    }
  }

  /** The source's bitwise `&` on two non-negative 32-bit ints. */
  function BitAnd(x: nat, y: nat): nat
    requires x < 0x1_0000_0000 && y < 0x1_0000_0000
  {
    ((x as bv32) & (y as bv32)) as nat
  }

  /** The loop of `add` when `i < n/2`, as a function of the buffer: slot `j' + k` takes slot `j' + k + 1`. */
  function ShiftFirstBackSeq<T>(s: seq<T>, j': nat, k: nat, i: nat): (r: seq<T>)
    requires j' < |s| && i < |s| && k <= i
    ensures |r| == |s|
    decreases i - k
  {
    if k == i then s
    else ShiftFirstBackSeq(s[Wrap(j' + k, |s|) := s[Wrap(j' + k + 1, |s|)]], j', k + 1, i)
  }

  /**
   * The loop of `add` when `i >= n/2` exactly as written in both ArrayDeques: the
   * slot read is `(j + k - 1) & length` rather than `% length`, and `operator[]`
   * throws when that equals the length.
   */
  function ShiftLastForwardAsWritten<T>(s: seq<T>, j: nat, k: nat, i: nat): (r: Result<seq<T>>)
    requires j < |s| && k < |s| && |s| < 0x8000_0000
    ensures r.Ok? ==> |r.value| == |s|
    decreases k
  {
    if k <= i then Ok(s)
    else
      var src := BitAnd(j + k - 1, |s|);
      if src >= |s| then Err(IndexOutOfBounds)
      else ShiftLastForwardAsWritten(s[Wrap(j + k, |s|) := s[src]], j, k - 1, i)
  }

  /** `add(i, x)` as written, on a buffer that already has a free slot: the new buffer and start. */
  function AddAsWritten<T>(s: seq<T>, j: nat, n: nat, i: nat, x: T): Result<(seq<T>, nat)>
    requires j < |s| && n < |s| && i <= n && |s| < 0x8000_0000
  {
    if i < n / 2 then
      var j' := if j == 0 then |s| - 1 else j - 1;
      var t := ShiftFirstBackSeq(s, j', 0, i);
      Ok((t[Wrap(j' + i, |s|) := x], j'))
    else
      match ShiftLastForwardAsWritten(s, j, n, i)
      case Err(e) => Err(e)
      case Ok(t) => Ok((t[Wrap(j + i, |s|) := x], j))
  }

  /**
   * A new deque after `add(0, 'a')`, `add(1, 'b')` holds a,b in two slots; the third
   * call `add(1, 'c')` first grows the buffer to four slots (`j = 0`, `n = 2`). As
   * written, slot 2 is then filled from slot `1 & 4 == 0`, so the list reads a,c,a
   * and `b` is lost, where a,c,b is meant.
   */
  lemma AddAsWrittenLosesElement()
    ensures AddAsWritten(['a', 'b', '_', '_'], 0, 2, 1, 'c') == Ok((['a', 'c', 'a', '_'], 0))
    ensures Window(['a', 'c', 'a', '_'], 0, 3) != Insert(['a', 'b'], 1, 'c')
  {
    assert BitAnd(1, 4) == 0;
    var s := ['a', 'b', '_', '_'];
    assert Wrap(2, 4) == 2 && Wrap(1, 4) == 1;
    assert ShiftLastForwardAsWritten(s[2 := 'a'], 0, 1, 1) == Ok(s[2 := 'a']);
    assert ShiftLastForwardAsWritten(s, 0, 2, 1) == Ok(s[2 := 'a']);
    assert s[2 := 'a'][1 := 'c'] == ['a', 'c', 'a', '_'];
    assert Window(['a', 'c', 'a', '_'], 0, 3)[2] == 'a';
  }

  /**
   * A new deque after `add(0, '1')`, `add(0, '2')`, `add(0, '3')` has four slots
   * holding 2,1,_,3 with `j = 3` and `n = 3` (the list 3,2,1). Then `add(2, 'x')`
   * needs no resize and first reads slot `(3 + 3 - 1) & 4 == 4`, which `operator[]`
   * rejects: the call throws out_of_range.
   */
  lemma AddAsWrittenThrows()
    ensures Window(['2', '1', '_', '3'], 3, 3) == ['3', '2', '1']
    ensures AddAsWritten(['2', '1', '_', '3'], 3, 3, 2, 'x') == Err(IndexOutOfBounds)
  {
    assert BitAnd(5, 4) == 4;
  }
}
