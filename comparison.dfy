/**
 The order the list's `operator<` decides, stated over the two lists' element
 sequences in iteration order: the walk of `std::lexicographical_compare`,
 a reference definition of lexicographic order, and the facts that make it a
 strict total order. Ordering needs an ordered element type: it is stated
 for `int`.
 */
module Comparison {

  /**
   `lhs < rhs`: `std::lexicographical_compare`. The walk stops when `rhs`
   runs out (not less), when `lhs` runs out first (less), or at the first
   position where one element is less than the other.
   */
  function Less(lhs: seq<int>, rhs: seq<int>): bool
  {
    if |rhs| == 0 then false
    else if |lhs| == 0 then true
    else if lhs[0] < rhs[0] then true
    else if rhs[0] < lhs[0] then false
    else Less(lhs[1..], rhs[1..])
  }

  /**
   The reference definition of lexicographic order: `lhs` is less than `rhs`
   at position `k` when both agree on their first `k` elements and then
   either `lhs` has ended while `rhs` goes on, or `lhs[k] < rhs[k]`.
   */
  ghost predicate LessAt(lhs: seq<int>, rhs: seq<int>, k: nat)
  {
    k <= |lhs| && k < |rhs| && lhs[..k] == rhs[..k] && (k == |lhs| || lhs[k] < rhs[k])
  }

  /** The comparison walk decides exactly the reference definition. */
  lemma {:induction false} LessIff(lhs: seq<int>, rhs: seq<int>)
    ensures Less(lhs, rhs) <==> exists k: nat :: LessAt(lhs, rhs, k)
  {
    if |rhs| == 0 {
    } else if |lhs| == 0 {
      assert LessAt(lhs, rhs, 0);
    } else if lhs[0] < rhs[0] {
      assert LessAt(lhs, rhs, 0);
    } else if rhs[0] < lhs[0] {
    } else {
      LessIff(lhs[1..], rhs[1..]);
      if Less(lhs, rhs) {
        var k: nat :| LessAt(lhs[1..], rhs[1..], k);
        assert lhs[..k + 1] == [lhs[0]] + lhs[1..][..k];
        assert rhs[..k + 1] == [rhs[0]] + rhs[1..][..k];
        assert LessAt(lhs, rhs, k + 1);
      }
      if k: nat :| LessAt(lhs, rhs, k) {
        if k == 0 {
        } else {
          assert lhs[1..][..k - 1] == lhs[..k][1..];
          assert rhs[1..][..k - 1] == rhs[..k][1..];
          assert LessAt(lhs[1..], rhs[1..], k - 1);
        }
      }
    }
  }

  /** One step of the walk, taken at position `k` of both sequences. */
  lemma LessFrom(lhs: seq<int>, rhs: seq<int>, k: nat)
    requires k <= |lhs| && k <= |rhs|
    ensures Less(lhs[k..], rhs[k..]) ==
      if k == |rhs| then false
      else if k == |lhs| then true
      else if lhs[k] < rhs[k] then true
      else if rhs[k] < lhs[k] then false
      else Less(lhs[k + 1..], rhs[k + 1..])
  {
    if k < |lhs| && k < |rhs| {
      assert lhs[k..][1..] == lhs[k + 1..];
      assert rhs[k..][1..] == rhs[k + 1..];
    }
  }

  /** A strict prefix is less: `{1, 2} < {1, 2, 3}` and `{} < {1}`. */
  lemma {:induction false} StrictPrefixIsLess(lhs: seq<int>, rhs: seq<int>)
    requires |lhs| < |rhs| && lhs == rhs[..|lhs|]
    ensures Less(lhs, rhs)
  {
    if |lhs| > 0 {
      assert lhs[0] == rhs[0];
      assert lhs[1..] == rhs[1..][..|lhs| - 1];
      StrictPrefixIsLess(lhs[1..], rhs[1..]);
    }
  }

  /** No sequence is less than itself. */
  lemma {:induction false} LessIrreflexive(s: seq<int>)
    ensures !Less(s, s)
  {
    if |s| > 0 {
      LessIrreflexive(s[1..]);
    }
  }

  /** `<` is asymmetric, so `a <= b` and `b < a` never both hold. */
  lemma {:induction false} LessAsymmetric(lhs: seq<int>, rhs: seq<int>)
    ensures Less(lhs, rhs) ==> !Less(rhs, lhs)
  {
    if |lhs| > 0 && |rhs| > 0 && lhs[0] == rhs[0] {
      LessAsymmetric(lhs[1..], rhs[1..]);
    }
  }

  /** `<` is transitive. */
  lemma {:induction false} LessTransitive(a: seq<int>, b: seq<int>, c: seq<int>)
    requires Less(a, b) && Less(b, c)
    ensures Less(a, c)
  {
    if |a| > 0 && a[0] == b[0] && b[0] == c[0] {
      LessTransitive(a[1..], b[1..], c[1..]);
    }
  }

  /** Exactly one of `lhs < rhs`, `lhs == rhs`, `rhs < lhs` holds. */
  lemma {:induction false} LessTrichotomy(lhs: seq<int>, rhs: seq<int>)
    ensures Less(lhs, rhs) || lhs == rhs || Less(rhs, lhs)
    ensures !(Less(lhs, rhs) && lhs == rhs)
    ensures !(Less(lhs, rhs) && Less(rhs, lhs))
    ensures !(lhs == rhs && Less(rhs, lhs))
  {
    LessAsymmetric(lhs, rhs);
    if |lhs| > 0 && |rhs| > 0 && lhs[0] == rhs[0] {
      LessTrichotomy(lhs[1..], rhs[1..]);
      if lhs[1..] == rhs[1..] {
        assert lhs == [lhs[0]] + lhs[1..];
        assert rhs == [rhs[0]] + rhs[1..];
      }
    }
    if lhs == rhs {
      LessIrreflexive(lhs);
    }
  }

  /** A strict prefix is less, and the first differing element decides regardless of length. */
  lemma Examples()
    ensures Less([1, 2], [1, 2, 3])
    ensures Less([1, 2, 9], [1, 3]) && !Less([1, 3], [1, 2, 9])
    ensures Less([], [1])
  {
    StrictPrefixIsLess([1, 2], [1, 2, 3]);
    assert Less([1, 2, 9], [1, 3]);
  }
}
