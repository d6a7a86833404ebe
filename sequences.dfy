/**
 * Facts about strictly increasing integer sequences, shared by the two
 * functional tree models: the in-order sequence of a search tree is one.
 */
module Sequences {

  /** Every element is smaller than every later one. */
  predicate Increasing(s: seq<int>) {
    forall i, j | 0 <= i < j < |s| :: s[i] < s[j]
  }

  /** The parts around x of an increasing sequence are increasing and lie on either side of x. */
  lemma IncreasingParts(a: seq<int>, x: int, b: seq<int>)
    requires Increasing(a + [x] + b)
    ensures Increasing(a) && Increasing(b) && (forall k | k in a :: k < x) && (forall k | k in b :: x < k)
  {
    var s := a + [x] + b;
    forall i, j | 0 <= i < j < |a| ensures a[i] < a[j] {
      assert s[i] == a[i] && s[j] == a[j];
    }
    forall i, j | 0 <= i < j < |b| ensures b[i] < b[j] {
      assert s[|a| + 1 + i] == b[i] && s[|a| + 1 + j] == b[j];
    }
    forall k | k in a ensures k < x {
      var i :| 0 <= i < |a| && a[i] == k;
      assert s[i] == k && s[|a|] == x;
    }
    forall k | k in b ensures x < k {
      var i :| 0 <= i < |b| && b[i] == k;
      assert s[|a| + 1 + i] == k && s[|a|] == x;
    }
  }

  /** Conversely, increasing parts on either side of x join into an increasing sequence. */
  lemma IncreasingJoin(a: seq<int>, x: int, b: seq<int>)
    requires Increasing(a) && Increasing(b) && (forall k | k in a :: k < x) && (forall k | k in b :: x < k)
    ensures Increasing(a + [x] + b)
  {
    var s := a + [x] + b;
    forall i, j | 0 <= i < j < |s| ensures s[i] < s[j] {
      if j < |a| {
        assert s[i] == a[i] && s[j] == a[j];
      } else if i < |a| {
        assert s[i] == a[i] && a[i] in a;
        if j > |a| {
          assert s[j] == b[j - |a| - 1] && b[j - |a| - 1] in b;
        }
      } else if i == |a| {
        assert s[j] == b[j - |a| - 1] && b[j - |a| - 1] in b;
      } else {
        assert s[i] == b[i - |a| - 1] && s[j] == b[j - |a| - 1];
      }
    }
  }
}
