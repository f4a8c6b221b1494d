/**
 Sequence operations that give the abstract effect of the list's positional
 mutators. A list of n elements has cursor positions 0 .. n: position 0 is the
 sentinel (the "before-begin" anchor) and position k + 1 is element k, so
 "insert after position k" puts the new element at index k and "erase after
 position k" removes the element at index k.
 */
module Sequences {

  /** The element sequence after inserting `v` right after cursor position `k`. */
  function Inserted<T>(s: seq<T>, k: nat, v: T): (r: seq<T>)
    requires k <= |s|
    ensures |r| == |s| + 1
    ensures r[k] == v
    ensures forall i :: 0 <= i < k ==> r[i] == s[i]
    ensures forall i :: k < i < |r| ==> r[i] == s[i - 1]
  {
    s[..k] + [v] + s[k..]
  }

  /** The element sequence after erasing the element right after cursor position `k`. */
  function Erased<T>(s: seq<T>, k: nat): (r: seq<T>)
    requires k < |s|
    ensures |r| == |s| - 1
    ensures forall i :: 0 <= i < k ==> r[i] == s[i]
    ensures forall i :: k <= i < |r| ==> r[i] == s[i + 1]
  {
    s[..k] + s[k + 1..]
  }

  /** The first index at which `x` occurs in `s`. */
  function IndexOf<T(==)>(s: seq<T>, x: T): (i: nat)
    requires x in s
    ensures i < |s| && s[i] == x
    ensures forall j :: 0 <= j < i ==> s[j] != x
  {
    if s[0] == x then 0 else 1 + IndexOf(s[1..], x)
  }

  /** Erasing after position k undoes inserting after position k. */
  lemma EraseUndoesInsert<T>(s: seq<T>, k: nat, v: T)
    requires k <= |s|
    ensures Erased(Inserted(s, k, v), k) == s
  {
    var t := Inserted(s, k, v);
    assert Erased(t, k) == s by {
      forall i | 0 <= i < |s| ensures Erased(t, k)[i] == s[i] { }
    }
  }

  /** Inserting after the sentinel (position 0) prepends: InsertAfter(before_begin(), v) is PushFront(v). */
  lemma InsertAtFrontIsPrepend<T>(s: seq<T>, v: T)
    ensures Inserted(s, 0, v) == [v] + s
  {
    assert Inserted(s, 0, v) == [v] + s by {
      forall i | 0 <= i < |s| + 1 ensures Inserted(s, 0, v)[i] == ([v] + s)[i] { }
    }
  }

  /** Erasing after the sentinel drops the first element: EraseAfter(before_begin()) is PopFront(). */
  lemma EraseAtFrontIsTail<T>(s: seq<T>)
    requires |s| > 0
    ensures Erased(s, 0) == s[1..]
  {
    assert Erased(s, 0) == s[1..] by {
      forall i | 0 <= i < |s| - 1 ensures Erased(s, 0)[i] == s[1..][i] { }
    }
  }
}
