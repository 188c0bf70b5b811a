/** The sequence edits that the list operations refine. */
module SeqEdit {

  /** `s` with `x` inserted so that it becomes element `i`. */
  function Insert<T>(s: seq<T>, i: nat, x: T): (r: seq<T>)
    requires i <= |s|
    ensures |r| == |s| + 1 && r[i] == x
    ensures forall k :: 0 <= k < i ==> r[k] == s[k]
    ensures forall k :: i < k < |r| ==> r[k] == s[k - 1]
  {
    s[..i] + [x] + s[i..]
  }

  /** `s` with element `i` deleted. */
  function Delete<T>(s: seq<T>, i: nat): (r: seq<T>)
    requires i < |s|
    ensures |r| == |s| - 1
    ensures forall k :: 0 <= k < i ==> r[k] == s[k]
    ensures forall k :: i <= k < |r| ==> r[k] == s[k + 1]
  {
    s[..i] + s[i + 1..]
  }

  function Reverse<T>(s: seq<T>): (r: seq<T>)
    ensures |r| == |s|
    ensures forall k :: 0 <= k < |s| ==> r[k] == s[|s| - 1 - k]
  {
    if s == [] then [] else Reverse(s[1..]) + [s[0]]
  }

  /** Deleting what was just inserted gives back the original sequence. */
  lemma DeleteInsert<T>(s: seq<T>, i: nat, x: T)
    requires i <= |s|
    ensures Delete(Insert(s, i, x), i) == s
  {
    assert Delete(Insert(s, i, x), i) == s[..i] + s[i..];
    assert s[..i] + s[i..] == s;
  }

  /** Re-inserting a deleted element at its old place gives back the original sequence. */
  lemma InsertDelete<T>(s: seq<T>, i: nat)
    requires i < |s|
    ensures Insert(Delete(s, i), i, s[i]) == s
  {
  }
}
