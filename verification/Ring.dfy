/** The circular doubly linked list that kernel/bio.c threads through its buffers, as index links. */
module Ring {

  /** The k-th node of the ring: the head, then the members in order, then the head again. */
  function At(head: nat, order: seq<nat>, k: nat): (i: nat)
    requires k <= |order| + 1
  {
    if k == 0 || k == |order| + 1 then head else order[k - 1]
  }

  ghost predicate Members(head: nat, order: seq<nat>) {
    && (forall k :: 0 <= k < |order| ==> order[k] < head)
    && (forall j, k :: 0 <= j < k < |order| ==> order[j] != order[k])
  }

  /** next and prev walk the ring in both directions. */
  ghost predicate Linked(next: seq<nat>, prev: seq<nat>, head: nat, order: seq<nat>) {
    && |next| == |prev| == head + 1
    && Members(head, order)
    && (forall k: nat :: k <= |order| ==> next[At(head, order, k)] == At(head, order, k + 1))
    && (forall k: nat :: k <= |order| ==> prev[At(head, order, k + 1)] == At(head, order, k))
  }

  /** Linking i right after the head. */
  function PushFront(next: seq<nat>, prev: seq<nat>, head: nat, i: nat): (r: (seq<nat>, seq<nat>))
    requires |next| == |prev| == head + 1 && i < head && next[head] <= head
  {
    (next[i := next[head]][head := i], prev[i := head][next[head] := i])
  }

  /** Taking i out of whatever ring it is on. */
  function Unlink(next: seq<nat>, prev: seq<nat>, i: nat): (r: (seq<nat>, seq<nat>))
    requires i < |next| == |prev| && next[i] < |next| && prev[i] < |next|
  {
    (next[prev[i] := next[i]], prev[next[i] := prev[i]])
  }

  lemma {:induction false} PushFrontLinks(next: seq<nat>, prev: seq<nat>, head: nat, order: seq<nat>, i: nat)
    requires Linked(next, prev, head, order) && i < head && i !in order
    ensures next[head] <= head
    ensures var r := PushFront(next, prev, head, i); Linked(r.0, r.1, head, [i] + order)
  {
    assert next[At(head, order, 0)] == At(head, order, 1);
    assert prev[At(head, order, 1)] == At(head, order, 0);
    var (n, p) := PushFront(next, prev, head, i);
    var o := [i] + order;
    forall k: nat | k <= |o|
      ensures n[At(head, o, k)] == At(head, o, k + 1) && p[At(head, o, k + 1)] == At(head, o, k) {
      if k >= 1 {
        assert At(head, o, k + 1) == At(head, order, k);
        assert next[At(head, order, k - 1)] == At(head, order, k) && prev[At(head, order, k)] == At(head, order, k - 1);
      }
    }
  }

  function RemoveAt(order: seq<nat>, k: nat): (r: seq<nat>)
    requires k < |order|
  {
    order[..k] + order[k + 1..]
  }

  lemma {:induction false} UnlinkLinks(next: seq<nat>, prev: seq<nat>, head: nat, order: seq<nat>, m: nat)
    requires Linked(next, prev, head, order) && m < |order|
    ensures next[order[m]] <= head && prev[order[m]] <= head && order[m] !in RemoveAt(order, m)
    ensures var r := Unlink(next, prev, order[m]); Linked(r.0, r.1, head, RemoveAt(order, m))
  {
    var i := order[m];
    var o := RemoveAt(order, m);
    assert At(head, order, m + 1) == i;
    assert next[i] == At(head, order, m + 2) && prev[i] == At(head, order, m);
    var (n, p) := Unlink(next, prev, i);
    forall k: nat | k <= |o|
      ensures n[At(head, o, k)] == At(head, o, k + 1) && p[At(head, o, k + 1)] == At(head, o, k) {
      if k < m {
        assert At(head, o, k) == At(head, order, k) && At(head, o, k + 1) == At(head, order, k + 1);
      } else if k > m {
        assert At(head, o, k) == At(head, order, k + 1) && At(head, o, k + 1) == At(head, order, k + 2);
      } else {
        assert At(head, o, k) == At(head, order, m) && At(head, o, k + 1) == At(head, order, m + 2);
      }
    }
  }
}
