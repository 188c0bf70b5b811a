/**
 * DualArrayDeque (src/lists/DualArrayDeque.cpp): a list kept in two ArrayStacks
 * placed back to back. `front` holds the first part of the list reversed, so its
 * end is the list's head; `back` holds the rest in order. After every `add` and
 * `remove`, `balance` rebuilds both stacks with an even split whenever one holds
 * more than three times as many elements as the other.
 */
module ListsDualArrayDeque {
  import opened Wrappers
  import opened SeqEdit
  import opened ListsArrayStack

  /** Neither stack holds more than three times as many elements as the other. */
  predicate Balanced(nf: nat, nb: nat)
  {
    !(3 * nf < nb || 3 * nb < nf)
  }

  /** The split `balance` produces, `n/2` in front and the rest behind, is balanced for every `n >= 2`. */
  lemma EvenSplitBalanced(n: nat)
    requires n >= 2
    ensures Balanced(n / 2, n - n / 2)
  {
  }

  /** With one element the split is 0 in front and 1 behind, which is not balanced: `balance` fires again on every call. */
  lemma SingletonNeverBalanced()
    ensures !Balanced(1 / 2, 1 - 1 / 2)
  {
  }

  /** Inserting at `|f| - i` of the front stack is inserting at `i` of the list. */
  lemma FrontInsert<T>(f: seq<T>, b: seq<T>, i: nat, x: T)
    requires i < |f|
    ensures Reverse(Insert(f, |f| - i, x)) + b == Insert(Reverse(f) + b, i, x)
  {
    var l := Reverse(Insert(f, |f| - i, x)) + b;
    var r := Insert(Reverse(f) + b, i, x);
    assert |l| == |r|;
    forall k | 0 <= k < |l|
      ensures l[k] == r[k]
    {
      if k < i {
        assert l[k] == f[|f| - 1 - k];
      } else if k == i {
      } else if k <= |f| {
        assert l[k] == f[|f| - k];
      }
    }
  }

  /** Inserting at `i - |f|` of the back stack is inserting at `i` of the list. */
  lemma BackInsert<T>(f: seq<T>, b: seq<T>, i: nat, x: T)
    requires |f| <= i <= |f| + |b|
    ensures Reverse(f) + Insert(b, i - |f|, x) == Insert(Reverse(f) + b, i, x)
  {
    var rf := Reverse(f);
    var ib := Insert(b, i - |f|, x);
    var l := rf + ib;
    var r := Insert(rf + b, i, x);
    assert |l| == |r|;
    forall k | 0 <= k < |l|
      ensures l[k] == r[k]
    {
      if k < |f| {
        assert l[k] == rf[k];
        assert r[k] == (rf + b)[k];
      } else {
        assert l[k] == ib[k - |f|];
        if k < i {
          assert r[k] == b[k - |f|];
        } else if k > i {
          assert r[k] == (rf + b)[k - 1];
        }
      }
    }
  }

  /** Overwriting index `|f| - i - 1` of the front stack overwrites index `i` of the list. */
  lemma FrontUpdate<T>(f: seq<T>, b: seq<T>, i: nat, x: T)
    requires i < |f|
    ensures Reverse(f[|f| - i - 1 := x]) + b == (Reverse(f) + b)[i := x]
  {
    var l := Reverse(f[|f| - i - 1 := x]) + b;
    var r := (Reverse(f) + b)[i := x];
    assert |l| == |r|;
    forall k | 0 <= k < |l|
      ensures l[k] == r[k]
    {
      if k < |f| && k != i {
        assert l[k] == f[|f| - 1 - k];
      }
    }
  }

  /** Overwriting index `i - |f|` of the back stack overwrites index `i` of the list. */
  lemma BackUpdate<T>(f: seq<T>, b: seq<T>, i: nat, x: T)
    requires |f| <= i < |f| + |b|
    ensures Reverse(f) + b[i - |f| := x] == (Reverse(f) + b)[i := x]
  {
    var l := Reverse(f) + b[i - |f| := x];
    var r := (Reverse(f) + b)[i := x];
    assert |l| == |r|;
    forall k | 0 <= k < |l|
      ensures l[k] == r[k]
    {
    }
  }

  /** Splitting a list at `nf`, reversing the front part and reading it back restores the list. */
  lemma SplitJoin<T>(c: seq<T>, f: seq<T>, b: seq<T>, nf: nat)
    requires nf <= |c| && f == Reverse(c[..nf]) && b == c[nf..]
    ensures Reverse(f) + b == c
  {
    var l := Reverse(f) + b;
    assert |l| == |c|;
    forall k | 0 <= k < |c|
      ensures l[k] == c[k]
    {
      if k < nf {
        assert l[k] == f[nf - 1 - k];
      }
    }
  }

  /** Removing index `|f| - i - 1` of the front stack removes index `i` of the list. */
  lemma FrontDelete<T>(f: seq<T>, b: seq<T>, i: nat)
    requires i < |f|
    ensures Reverse(Delete(f, |f| - i - 1)) + b == Delete(Reverse(f) + b, i)
  {
    var l := Reverse(Delete(f, |f| - i - 1)) + b;
    var r := Delete(Reverse(f) + b, i);
    assert |l| == |r|;
    forall k | 0 <= k < |l|
      ensures l[k] == r[k]
    {
      if k < i {
        assert l[k] == f[|f| - 2 - k + 1];
      } else if k < |f| - 1 {
        assert l[k] == f[|f| - 2 - k];
      }
    }
  }

  /** Removing index `i - |f|` of the back stack removes index `i` of the list. */
  lemma BackDelete<T>(f: seq<T>, b: seq<T>, i: nat)
    requires |f| <= i < |f| + |b|
    ensures Reverse(f) + Delete(b, i - |f|) == Delete(Reverse(f) + b, i)
  {
    var l := Reverse(f) + Delete(b, i - |f|);
    var r := Delete(Reverse(f) + b, i);
    assert |l| == |r|;
    forall k | 0 <= k < |l|
      ensures l[k] == r[k]
    {
    }
  }

  class DualArrayDeque<T(0)> {
    var front: ArrayStack<T>
    var back: ArrayStack<T>
    ghost var Contents: seq<T>
    ghost var Repr: set<object>

    ghost predicate Valid()
      reads this, Repr
      ensures Valid() ==> this in Repr
    {
      front in Repr && back in Repr && Repr == {this, front, front.a, back, back.a} &&
      front.Repr == {front, front.a} && back.Repr == {back, back.a} &&
      front != back && front.a != back.a &&
      front.Valid() && back.Valid() &&
      Contents == Reverse(front.Contents) + back.Contents
    }

    /** Two empty stacks. */
    constructor ()
      ensures Valid() && fresh(Repr)
      ensures Contents == []
    {
      front := new ArrayStack<T>();
      back := new ArrayStack<T>();
      new;
      Contents := [];
      Repr := {this, front, front.a, back, back.a};
    }

    method Size() returns (r: nat)
      requires Valid()
      ensures r == |Contents|
    {
      var nf := front.Size();
      var nb := back.Size();
      r := nf + nb;
    }

    /** `get(i)`: from the end of `front` for `i < front.size()`, otherwise from `back`. */
    method Get(i: int) returns (r: Result<T>)
      requires Valid()
      ensures 0 <= i < |Contents| ==> r == Ok(Contents[i])
    {
      var nf := front.Size();
      if i < nf {
        r := front.Get(nf - i - 1);
      } else {
        r := back.Get(i - nf);
      }
    }

    /** `set(i, x)`: routed like `get`; an index outside the list leaves the list as it was. */
    method Set(i: int, x: T) returns (r: Result<T>)
      requires Valid()
      modifies Repr
      ensures Valid() && Repr == old(Repr) && front == old(front) && back == old(back)
      ensures 0 <= i < old(|Contents|) ==> r == Ok(old(Contents)[i]) && Contents == old(Contents)[i := x]
      ensures !(0 <= i < old(|Contents|)) ==> Contents == old(Contents)
    {
      ghost var F, B := front.Contents, back.Contents;
      var nf := front.Size();
      if i < nf {
        r := front.Set(nf - i - 1, x);
        assert back.Contents == B;
        if 0 <= i {
          FrontUpdate(F, B, i, x);
          assert front.Contents == F[nf - i - 1 := x];
        } else {
          assert front.Contents == F;
        }
      } else {
        r := back.Set(i - nf, x);
        assert front.Contents == F;
        if i < |Contents| {
          BackUpdate(F, B, i, x);
          assert back.Contents == B[i - nf := x];
        } else {
          assert back.Contents == B;
        }
      }
      Contents := Reverse(front.Contents) + back.Contents;
    }

    /** `add(i, x)`: into `front` at `front.size() - i`, or into `back` at `i - front.size()`; then `balance`. */
    method Add(i: int, x: T)
      requires Valid() && 0 <= i <= |Contents|
      modifies Repr
      ensures Valid() && fresh(Repr - old(Repr))
      ensures Contents == Insert(old(Contents), i, x)
      ensures |Contents| != 1 ==> Balanced(|front.Contents|, |back.Contents|)
    {
      AddUnbalanced(i, x);
      Balance();
    }

    /** The part of `add(i, x)` before `balance`: the element joins whichever stack `i` falls in. */
    method AddUnbalanced(i: int, x: T)
      requires Valid() && 0 <= i <= |Contents|
      modifies Repr
      ensures Valid() && fresh(Repr - old(Repr))
      ensures Contents == Insert(old(Contents), i, x)
    {
      var nf := front.Size();
      if i < nf {
        AddFront(i, x);
      } else {
        AddBack(i, x);
      }
    }

    /** The `front` branch of `add(i, x)`: insert at `front.size() - i`. */
    method AddFront(i: nat, x: T)
      requires Valid() && i < |front.Contents|
      modifies Repr
      ensures Valid() && fresh(Repr - old(Repr))
      ensures Contents == Insert(old(Contents), i, x)
    {
      ghost var F, B := front.Contents, back.Contents;
      FrontInsert(F, B, i, x);
      var nf := front.Size();
      front.Add(nf - i, x);
      assert front.Contents == Insert(F, |F| - i, x) && back.Contents == B;
      Contents := Reverse(front.Contents) + back.Contents;
      Repr := {this, front, front.a, back, back.a};
    }

    /** The `back` branch of `add(i, x)`: insert at `i - front.size()`. */
    method AddBack(i: nat, x: T)
      requires Valid() && |front.Contents| <= i <= |Contents|
      modifies Repr
      ensures Valid() && fresh(Repr - old(Repr))
      ensures Contents == Insert(old(Contents), i, x)
    {
      ghost var F, B := front.Contents, back.Contents;
      BackInsert(F, B, i, x);
      var nf := front.Size();
      back.Add(i - nf, x);
      assert front.Contents == F && back.Contents == Insert(B, i - |F|, x);
      Contents := Reverse(front.Contents) + back.Contents;
      Repr := {this, front, front.a, back, back.a};
    }

    /** `remove(i)`: from `front` at `front.size() - i - 1`, or from `back` at `i - front.size()`; then `balance`. */
    method Remove(i: int) returns (x: T)
      requires Valid() && 0 <= i < |Contents|
      modifies Repr
      ensures Valid() && fresh(Repr - old(Repr))
      ensures x == old(Contents)[i]
      ensures Contents == Delete(old(Contents), i)
      ensures |Contents| != 1 ==> Balanced(|front.Contents|, |back.Contents|)
    {
      x := RemoveUnbalanced(i);
      Balance();
    }

    /** The part of `remove(i)` before `balance`: the element leaves whichever stack holds it. */
    method RemoveUnbalanced(i: int) returns (x: T)
      requires Valid() && 0 <= i < |Contents|
      modifies Repr
      ensures Valid() && fresh(Repr - old(Repr))
      ensures x == old(Contents)[i]
      ensures Contents == Delete(old(Contents), i)
    {
      var nf := front.Size();
      if i < nf {
        x := RemoveFront(i);
      } else {
        x := RemoveBack(i);
      }
    }

    /** The `front` branch of `remove(i)`: remove at `front.size() - i - 1`. */
    method RemoveFront(i: nat) returns (x: T)
      requires Valid() && i < |front.Contents|
      modifies Repr
      ensures Valid() && fresh(Repr - old(Repr))
      ensures x == old(Contents)[i]
      ensures Contents == Delete(old(Contents), i)
    {
      ghost var F, B := front.Contents, back.Contents;
      FrontDelete(F, B, i);
      var nf := front.Size();
      assert Contents[i] == F[nf - i - 1];
      x := front.Remove(nf - i - 1);
      assert front.Contents == Delete(F, |F| - i - 1) && back.Contents == B;
      Contents := Reverse(front.Contents) + back.Contents;
      Repr := {this, front, front.a, back, back.a};
    }

    /** The `back` branch of `remove(i)`: remove at `i - front.size()`. */
    method RemoveBack(i: nat) returns (x: T)
      requires Valid() && |front.Contents| <= i < |Contents|
      modifies Repr
      ensures Valid() && fresh(Repr - old(Repr))
      ensures x == old(Contents)[i]
      ensures Contents == Delete(old(Contents), i)
    {
      ghost var F, B := front.Contents, back.Contents;
      BackDelete(F, B, i);
      var nf := front.Size();
      assert Contents[i] == B[i - nf];
      x := back.Remove(i - nf);
      assert front.Contents == F && back.Contents == Delete(B, i - |F|);
      Contents := Reverse(front.Contents) + back.Contents;
      Repr := {this, front, front.a, back, back.a};
    }

    /**
     * `balance()`: when one stack holds more than three times the other, both are
     * rebuilt with `n/2` elements in front and the rest behind; the list itself
     * never changes. The front stack is filled here by `add(i, get(nf - i - 1))`:
     * see the finding on lines 45-47 of the source and `FrontFillAsWritten`.
     */
    method Balance()
      requires Valid()
      modifies Repr
      ensures Valid() && fresh(Repr - old(Repr))
      ensures Contents == old(Contents)
      ensures Balanced(old(|front.Contents|), old(|back.Contents|)) ==>
                front == old(front) && back == old(back) && Repr == old(Repr) &&
                front.Contents == old(front.Contents) && back.Contents == old(back.Contents)
      ensures !Balanced(old(|front.Contents|), old(|back.Contents|)) ==>
                |front.Contents| == |Contents| / 2 && |back.Contents| == |Contents| - |Contents| / 2
      ensures |Contents| != 1 ==> Balanced(|front.Contents|, |back.Contents|)
    {
      var nfront := front.Size();
      var nback := back.Size();
      if 3 * nfront < nback || 3 * nback < nfront {
        Rebuild();
        if nfront + nback >= 2 {
          EvenSplitBalanced(nfront + nback);
        }
      }
    }

    /** The body of `balance` once it fires: fresh stacks with `n/2` elements in front and the rest behind. */
    method Rebuild()
      requires Valid()
      modifies Repr
      ensures Valid() && fresh(Repr - old(Repr))
      ensures Contents == old(Contents)
      ensures |front.Contents| == |Contents| / 2 && |back.Contents| == |Contents| - |Contents| / 2
    {
      var n := Size();
      var nf := n / 2;
      var af2 := FillFront(nf);
      var nb := n - nf;
      var ab2 := FillBack(nf, nb);
      SplitJoin(Contents, af2.Contents, ab2.Contents, nf);
      front := af2;
      back := ab2;
      Repr := {this, front, front.a, back, back.a};
    }

    /** The first loop of `balance`: a new stack holding the first `nf` elements, reversed. */
    method FillFront(nf: nat) returns (af2: ArrayStack<T>)
      requires Valid() && nf <= |Contents|
      ensures fresh(af2.Repr) && af2.Valid()
      ensures af2.Contents == Reverse(Contents[..nf])
    {
      af2 := new ArrayStack<T>();
      for i := 0 to nf
        invariant fresh(af2.Repr) && af2.Valid()
        invariant |af2.Contents| == i
        invariant forall k :: 0 <= k < i ==> af2.Contents[k] == Contents[nf - 1 - k]
      {
        var y := Get(nf - i - 1);
        af2.Add(i, y.value);
      }
    }

    /** The second loop of `balance`: a new stack holding elements `nf .. nf + nb - 1` in order. */
    method FillBack(nf: nat, nb: nat) returns (ab2: ArrayStack<T>)
      requires Valid() && nf + nb == |Contents|
      ensures fresh(ab2.Repr) && ab2.Valid()
      ensures ab2.Contents == Contents[nf..]
    {
      ab2 := new ArrayStack<T>();
      for i := 0 to nb
        invariant fresh(ab2.Repr) && ab2.Valid()
        invariant |ab2.Contents| == i
        invariant forall k :: 0 <= k < i ==> ab2.Contents[k] == Contents[nf + k]
      {
        var y := Get(nf + i);
        ab2.Add(i, y.value);
      }
    }
  }

  /** The first half of `listCheck`: add(0,1), add(0,2), add(0,3) on a fresh deque. */
  method ListFill() returns (d: DualArrayDeque<int>)
    ensures fresh(d.Repr) && d.Valid() && d.Contents == [3, 2, 1]
  {
    d := new DualArrayDeque<int>();
    d.Add(0, 1);
    assert fresh(d.Repr) && d.Contents == [1];
    d.Add(0, 2);
    assert fresh(d.Repr) && d.Contents == [2, 1];
    AddThree(d);
  }

  /** The third `add(0, ·)` of `listCheck`. */
  method AddThree(d: DualArrayDeque<int>)
    requires d.Valid() && d.Contents == [2, 1]
    modifies d.Repr
    ensures d.Valid() && fresh(d.Repr - old(d.Repr)) && d.Contents == [3, 2, 1]
  {
    d.Add(0, 3);
  }

  /** `listCheck` on a DualArrayDeque: reads 3, 2, 1; after set(0,0), 0; after remove(0), 2. */
  method ListCheck() returns (seen: seq<Result<int>>)
    ensures seen == [Ok(3), Ok(2), Ok(1), Ok(0), Ok(2)]
  {
    var d := ListFill();
    var g0 := d.Get(0);
    var g1 := d.Get(1);
    var g2 := d.Get(2);
    var _ := d.Set(0, 0);
    assert d.Contents == [0, 2, 1];
    var g3 := d.Get(0);
    var _ := d.Remove(0);
    var g4 := d.Get(0);
    seen := [g0, g1, g2, g3, g4];
  }

  /** An ArrayStack of ints as plain values: the backing buffer and the element count. */
  datatype RawStack = RawStack(buf: seq<int>, n: nat)

  ghost predicate RawValid(st: RawStack)
  {
    1 <= |st.buf| && st.n <= |st.buf|
  }

  /** The shifting loop of `ArrayStack::add`: `a[j] = a[j-1]` for `j` from `hi` down to `lo + 1`. */
  function ShiftUp(buf: seq<int>, hi: nat, lo: nat): (r: seq<int>)
    requires hi < |buf|
    ensures |r| == |buf|
    decreases hi
  {
    if hi <= lo then buf else ShiftUp(buf[hi := buf[hi - 1]], hi - 1, lo)
  }

  /**
   * `ArrayStack::add(i, x)` exactly as written, on values: grow to max(2n, 1) slots
   * when full, shift, then write slot `i` through the bounds-checked `Array`. Nothing
   * checks `i <= n`, so an index past the element count but inside the buffer is
   * written, and one past the buffer throws out_of_range.
   */
  function RawAddAsWritten(st: RawStack, i: nat, x: int): (r: Result<RawStack>)
    requires RawValid(st)
    ensures r.Ok? ==> RawValid(r.value) && r.value.n == st.n + 1 && i < |r.value.buf| && r.value.buf[i] == x
    ensures r.Err? <==> i >= Max(|st.buf|, if st.n + 1 > |st.buf| then Max(2 * st.n, 1) else 0)
  {
    var buf := if st.n + 1 > |st.buf| then st.buf[..st.n] + seq(Max(2 * st.n, 1) - st.n, _ => 0) else st.buf;
    if i < |buf| then Ok(RawStack(ShiftUp(buf, st.n, i)[i := x], st.n + 1))
    else Err(IndexOutOfBounds)
  }

  /** The first loop of `balance` as written: `af2.add(nf - i - 1, get(i))` for `i` from 0 to `nf - 1`. */
  function FrontFillAsWritten(xs: seq<int>, nf: nat, i: nat, st: RawStack): Result<RawStack>
    requires nf <= |xs| && RawValid(st)
    decreases nf - i
  {
    if i >= nf then Ok(st)
    else match RawAddAsWritten(st, nf - i - 1, xs[i])
      case Err(e) => Err(e)
      case Ok(st') => FrontFillAsWritten(xs, nf, i + 1, st')
  }

  /**
   * As written, rebuilding the front stack throws for every list of four or more
   * elements: the first call adds at index `nf - 1 >= 1` of an empty one-slot stack.
   * Appending five elements one by one reaches this state (the fifth `add` splits 1/4).
   */
  lemma FrontFillAsWrittenThrows(xs: seq<int>)
    requires |xs| >= 4
    ensures FrontFillAsWritten(xs, |xs| / 2, 0, RawStack([0], 0)) == Err(IndexOutOfBounds)
  {
    assert RawAddAsWritten(RawStack([0], 0), |xs| / 2 - 1, xs[0]) == Err(IndexOutOfBounds);
  }

  /** With two or three elements (`nf == 1`) the as-written loop is harmless, which is why `listCheck` passes. */
  lemma FrontFillAsWrittenSmall(xs: seq<int>)
    requires 2 <= |xs| <= 3
    ensures FrontFillAsWritten(xs, |xs| / 2, 0, RawStack([0], 0)) == Ok(RawStack([xs[0]], 1))
  {
    var st := RawStack([0], 0);
    assert ShiftUp([0], 0, 0) == [0];
    assert [0][0 := xs[0]] == [xs[0]];
    assert RawAddAsWritten(st, 0, xs[0]) == Ok(RawStack([xs[0]], 1));
  }
}
