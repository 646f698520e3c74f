/** Counting with sequences that have no repeats. */
module Counting {

  ghost predicate NoRepeats(s: seq<nat>) {
    forall i, j :: 0 <= i < j < |s| ==> s[i] != s[j]
  }

  /** A sequence without repeats is no longer than one that has all its elements. */
  lemma {:induction false} FitsInside(a: seq<nat>, b: seq<nat>)
    requires NoRepeats(a) && forall x :: x in a ==> x in b
    ensures |a| <= |b|
  {
    if a != [] {
      var m := |a| - 1;
      assert a[m] in b;
      var k :| 0 <= k < |b| && b[k] == a[m];
      forall x | x in a[..m] ensures x in b[..k] + b[k + 1..] {
        assert x in a && x != a[m];
      }
      FitsInside(a[..m], b[..k] + b[k + 1..]);
    }
  }

  lemma {:induction false} RangeBound(s: seq<nat>, n: nat)
    requires NoRepeats(s) && forall k :: 0 <= k < |s| ==> s[k] < n
    ensures |s| <= n
  {
    var all := seq(n, i requires 0 <= i < n => i);
    forall x | x in s ensures x in all {
      assert all[x] == x;
    }
    FitsInside(s, all);
  }

  /** Something below n left out leaves room for at most n - 1. */
  lemma {:induction false} RangeBoundWithout(s: seq<nat>, n: nat, x: nat)
    requires NoRepeats(s) && (forall k :: 0 <= k < |s| ==> s[k] < n) && x < n && x !in s
    ensures |s| < n
  {
    RangeBound(s + [x], n);
  }
}
