/**
 * The bounds-checked fixed-length buffer that every array-based container is built on
 * (src/Array.cpp). The owned C-style block is a Dafny array; `l` is its recorded length.
 */
module Arrays {
  import opened Wrappers

  class Array<T(0)> {
    var a: array<T>
    var l: int

    ghost predicate Valid()
      reads this
    {
      l == a.Length
    }

    /** `Array()`: a one-slot buffer. */
    constructor Default()
      ensures Valid() && fresh(a)
      ensures l == 1
    {
      a := new T[1];
      l := 1;
    }

    /** `Array(len)`: a buffer of `len` slots. */
    constructor (len: nat)
      ensures Valid() && fresh(a)
      ensures l == len
    {
      a := new T[len];
      l := len;
    }

    /** `length()`. */
    function Length(): (r: int)
      requires Valid()
      reads this
      ensures r == a.Length
    {
      l
    }

    /** Reading through `operator[](i)`: slot `i`, or out_of_range outside `[0, l)`. */
    method At(i: int) returns (r: Result<T>)
      requires Valid()
      ensures 0 <= i < a.Length ==> r == Ok(a[i])
      ensures !(0 <= i < a.Length) ==> r == Err(IndexOutOfBounds)
    {
      if 0 <= i && i < l {
        r := Ok(a[i]);
      } else {
        r := Err(IndexOutOfBounds);
      }
    }

    /** Writing through the reference `operator[](i)` returns: only slot `i` changes, and the length never does. */
    method Put(i: int, x: T) returns (r: Outcome)
      requires Valid()
      modifies a
      ensures Valid() && l == old(l)
      ensures 0 <= i < a.Length ==> r == Pass && a[..] == old(a[..])[i := x]
      ensures !(0 <= i < a.Length) ==> r == Fail(IndexOutOfBounds) && a[..] == old(a[..])
    {
      if 0 <= i && i < l {
        a[i] := x;
        r := Pass;
      } else {
        r := Fail(IndexOutOfBounds);
      }
    }

    /** `operator=(b)`: this array takes over `b`'s buffer and length. */
    method Assign(b: Array<T>)
      requires b.Valid()
      modifies this
      ensures Valid()
      ensures a == old(b.a) && l == old(b.l) && a[..] == old(b.a[..])
    {
      a := b.a;
      l := b.l;
    }
  }

  /** A write through `operator[]` is read back by a later `operator[]` at the same index, and no other slot changes. */
  method WriteThenRead<T(0)>(arr: Array<T>, i: int, k: int, x: T) returns (r: Result<T>, s: Result<T>)
    requires arr.Valid() && 0 <= i < arr.a.Length && 0 <= k < arr.a.Length && k != i
    modifies arr.a
    ensures r == Ok(x)
    ensures s == Ok(old(arr.a[k]))
  {
    var _ := arr.Put(i, x);
    r := arr.At(i);
    s := arr.At(k);
  }
}
