/** Dijkstra's banker on values: what safety means, and what the operations of kernel/banker.c preserve. */
module BankerSpec {
  import Counting

  type Vec = seq<int>

  /** The state of the banker: nproc processes of the table are in use, each vector has one entry per resource. */
  datatype State = State(avail: Vec, alloc: seq<Vec>, need: seq<Vec>, nproc: nat)

  ghost predicate NonNegative(v: Vec) {
    forall j :: 0 <= j < |v| ==> v[j] >= 0
  }

  ghost predicate Shaped(s: State) {
    && |s.alloc| == |s.need| && s.nproc <= |s.alloc|
    && forall i :: 0 <= i < |s.alloc| ==> |s.alloc[i]| == |s.need[i]| == |s.avail|
  }

  ghost predicate Valid(s: State) {
    && Shaped(s) && NonNegative(s.avail)
    && forall i :: 0 <= i < |s.alloc| ==> NonNegative(s.alloc[i]) && NonNegative(s.need[i])
  }

  predicate Leq(a: Vec, b: Vec)
    requires |a| == |b|
  {
    forall j :: 0 <= j < |a| ==> a[j] <= b[j]
  }

  function Add(a: Vec, b: Vec): (r: Vec)
    requires |a| == |b|
  {
    seq(|a|, j requires 0 <= j < |a| => a[j] + b[j])
  }

  function Sub(a: Vec, b: Vec): (r: Vec)
    requires |a| == |b|
  {
    seq(|a|, j requires 0 <= j < |a| => a[j] - b[j])
  }

  ghost predicate Zero(v: Vec) {
    forall j :: 0 <= j < |v| ==> v[j] == 0
  }

  /** The first j entries of v, then zeros. */
  function Upto(v: Vec, j: nat): (r: Vec)
    ensures |r| == |v|
  {
    seq(|v|, k requires 0 <= k < |v| => if k < j then v[k] else 0)
  }

  /** What is left of a declared maximum, never below zero. */
  function Remaining(max: Vec, held: Vec): (r: Vec)
    requires |max| == |held|
  {
    seq(|max|, j requires 0 <= j < |max| => if max[j] < held[j] then 0 else max[j] - held[j])
  }

  // ---- safety, by definition

  ghost predicate Processes(s: State, order: seq<nat>) {
    Counting.NoRepeats(order) && forall k :: 0 <= k < |order| ==> order[k] < s.nproc
  }

  /** What is available once the processes in order have finished and given everything back. */
  function Work(s: State, order: seq<nat>): (w: Vec)
    requires Shaped(s) && Processes(s, order)
    ensures |w| == |s.avail|
  {
    if order == [] then s.avail
    else Add(Work(s, order[..|order| - 1]), s.alloc[order[|order| - 1]])
  }

  /** Each process of the order can get its whole remaining need from what its predecessors leave. */
  ghost predicate Finishes(s: State, order: seq<nat>)
    requires Shaped(s)
  {
    && Processes(s, order)
    && forall k :: 0 <= k < |order| ==> Leq(s.need[order[k]], Work(s, order[..k]))
  }

  /** A safe order is one in which every process finishes. */
  ghost predicate SafeOrder(s: State, order: seq<nat>)
    requires Shaped(s)
  {
    Finishes(s, order) && |order| == s.nproc
  }

  ghost predicate Safe(s: State)
    requires Shaped(s)
  {
    exists order :: SafeOrder(s, order)
  }

  /** The processes in done can finish one after the other, and then nobody who is left can. */
  ghost predicate Blocked(s: State, done: seq<nat>)
    requires Shaped(s)
  {
    && Finishes(s, done) && |done| < s.nproc
    && forall i: nat :: i < s.nproc && i !in done ==> !Leq(s.need[i], Work(s, done))
  }

  /** Whatever is finished first, the rest can go on: no choice of a greedy search goes wrong. */
  ghost predicate NeverBlocked(s: State)
    requires Shaped(s)
  {
    forall done :: !Blocked(s, done)
  }

  // ---- the greedy search is exact

  lemma {:induction false} WorkWithout(s: State, order: seq<nat>, k: nat, j: nat)
    requires Shaped(s) && Processes(s, order) && k < |order| && j < |s.avail|
    ensures Processes(s, order[..k] + order[k + 1..])
    ensures Work(s, order)[j] == Work(s, order[..k] + order[k + 1..])[j] + s.alloc[order[k]][j]
  {
    var n := |order| - 1;
    var rest := order[..k] + order[k + 1..];
    if k == n {
      assert rest == order[..n];
    } else {
      WorkWithout(s, order[..n], k, j);
      assert rest[..n - 1] == order[..n][..k] + order[..n][k + 1..];
      assert rest[n - 1] == order[n];
    }
  }

  /** More finished processes leave no less to work with. */
  lemma {:induction false} WorkMonotone(s: State, small: seq<nat>, big: seq<nat>, j: nat)
    requires Valid(s) && Processes(s, small) && Processes(s, big) && j < |s.avail|
    requires forall x :: x in small ==> x in big
    ensures Work(s, small)[j] <= Work(s, big)[j]
    decreases |big|
  {
    if small == [] {
      if big != [] {
        WorkMonotone(s, [], big[..|big| - 1], j);
      }
    } else {
      var m := |small| - 1;
      var x := small[m];
      assert x in big;
      var k :| 0 <= k < |big| && big[k] == x;
      var rest := big[..k] + big[k + 1..];
      WorkWithout(s, big, k, j);
      forall y | y in small[..m] ensures y in rest {
        assert y in small && y != x;
      }
      WorkMonotone(s, small[..m], rest, j);
    }
  }

  /** While some order is safe, some unfinished process can still finish. */
  lemma {:induction false} CanGoOn(s: State, order: seq<nat>, done: seq<nat>) returns (i: nat)
    requires Valid(s) && SafeOrder(s, order) && Processes(s, done) && |done| < s.nproc
    ensures i < s.nproc && i !in done && Leq(s.need[i], Work(s, done))
  {
    var k := FirstOutside(s, order, done);
    i := order[k];
    forall j | 0 <= j < |s.avail| ensures s.need[i][j] <= Work(s, done)[j] {
      WorkMonotone(s, order[..k], done, j);
    }
  }

  /** If every process left over needs more than is available, no order is safe. */
  lemma {:induction false} StuckIsUnsafe(s: State, done: seq<nat>)
    requires Valid(s) && Processes(s, done) && |done| < s.nproc
    requires forall i: nat :: i < s.nproc && i !in done ==> !Leq(s.need[i], Work(s, done))
    ensures !Safe(s)
  {
    forall order | SafeOrder(s, order) ensures false {
      var i := CanGoOn(s, order, done);
    }
  }

  lemma {:induction false} FirstOutside(s: State, order: seq<nat>, done: seq<nat>) returns (k: nat)
    requires Valid(s) && Processes(s, order) && Processes(s, done) && |done| < |order|
    ensures k < |order| && order[k] !in done && forall x :: x in order[..k] ==> x in done
  {
    k := 0;
    while k < |order| && order[k] in done
      invariant k <= |order| && forall x :: x in order[..k] ==> x in done
    {
      k := k + 1;
    }
    if k == |order| {
      assert order[..k] == order;
      Counting.FitsInside(order, done);
    }
  }

  lemma {:induction false} WorkMore(s: State, order: seq<nat>, i: nat)
    requires Shaped(s) && Processes(s, order) && i < s.nproc && i !in order
    ensures Processes(s, order + [i]) && Work(s, order + [i]) == Add(Work(s, order), s.alloc[i])
  {
    var longer := order + [i];
    assert longer[..|longer| - 1] == order;
  }

  /** One more process can finish. */
  lemma {:induction false} FinishesMore(s: State, order: seq<nat>, i: nat)
    requires Shaped(s) && Finishes(s, order) && i < s.nproc && i !in order && Leq(s.need[i], Work(s, order))
    ensures Finishes(s, order + [i]) && Work(s, order + [i]) == Add(Work(s, order), s.alloc[i])
  {
    hide Work, Leq;
    var longer := order + [i];
    WorkMore(s, order, i);
    forall k | 0 <= k < |longer| ensures Processes(s, longer[..k]) && Leq(s.need[longer[k]], Work(s, longer[..k])) {
      assert longer[..k] == if k < |order| then order[..k] else order;
    }
  }

  /** Without a dead end any beginning can be completed, also in tables that are not proper. */
  lemma {:induction false} Completed(s: State, done: seq<nat>)
    requires Shaped(s) && NeverBlocked(s) && Finishes(s, done)
    ensures Safe(s)
    decreases s.nproc - |done|
  {
    hide Work, Leq;
    Counting.RangeBound(done, s.nproc);
    if |done| == s.nproc {
      assert SafeOrder(s, done);
    } else {
      assert !Blocked(s, done);
      var i: nat :| i < s.nproc && i !in done && Leq(s.need[i], Work(s, done));
      FinishesMore(s, done, i);
      Counting.RangeBound(done + [i], s.nproc);
      Completed(s, done + [i]);
    }
  }

  /** In proper tables a safe state has no dead end, so that any greedy search decides safety. */
  lemma {:induction false} SafeIffNeverBlocked(s: State)
    requires Shaped(s)
    ensures NeverBlocked(s) ==> Safe(s)
    ensures Valid(s) && Safe(s) ==> NeverBlocked(s)
  {
    if NeverBlocked(s) {
      Completed(s, []);
    } else {
      var done :| Blocked(s, done);
      if Valid(s) {
        StuckIsUnsafe(s, done);
      }
    }
  }

  // ---- the operations

  /** Moving the vector v of resources from the pool to process p (or back, where v is negative). */
  function Moved(s: State, p: nat, v: Vec): (r: State)
    requires Shaped(s) && p < |s.alloc| && |v| == |s.avail|
  {
    s.(avail := Sub(s.avail, v), alloc := s.alloc[p := Add(s.alloc[p], v)], need := s.need[p := Sub(s.need[p], v)])
  }

  /** A request whose negative entries hand back no more than is held. */
  ghost predicate Covered(req: Vec, held: Vec)
    requires |req| == |held|
  {
    forall j :: 0 <= j < |req| ==> -held[j] <= req[j]
  }

  /** A request that Dijkstra's rule lets through: within the declared need, available, and safe afterwards. */
  ghost predicate Grantable(s: State, p: nat, req: Vec)
    requires Shaped(s) && p < |s.alloc| && |req| == |s.avail|
  {
    Leq(req, s.need[p]) && Leq(req, s.avail) && Safe(Moved(s, p, req))
  }

  lemma {:induction false} MovedValid(s: State, p: nat, v: Vec)
    requires Valid(s) && p < |s.alloc| && |v| == |s.avail|
    requires forall j :: 0 <= j < |v| ==> -s.alloc[p][j] <= v[j] <= s.need[p][j] && v[j] <= s.avail[j]
    ensures Valid(Moved(s, p, v))
  {
  }

  /** banker_request does not refuse negative entries: a request that passes its two comparisons leaves proper tables
      if and only if it hands back no more than is held. */
  lemma {:induction false} RequestValidIff(s: State, p: nat, req: Vec)
    requires Valid(s) && p < |s.alloc| && |req| == |s.avail| && Leq(req, s.need[p]) && Leq(req, s.avail)
    ensures Valid(Moved(s, p, req)) <==> Covered(req, s.alloc[p])
  {
    if Covered(req, s.alloc[p]) {
      MovedValid(s, p, req);
    } else {
      var j :| 0 <= j < |req| && req[j] < -s.alloc[p][j];
      assert Moved(s, p, req).alloc[p][j] < 0;
    }
  }

  /** With one process there is no dead end if and only if what it needs is there. */
  lemma {:induction false} OneProcessIff(s: State)
    requires Shaped(s) && s.nproc == 1
    ensures NeverBlocked(s) <==> Leq(s.need[0], s.avail)
  {
    forall done ensures Blocked(s, done) ==> done == [] {
    }
    assert Finishes(s, []) && Work(s, []) == s.avail;
    assert Blocked(s, []) <==> !Leq(s.need[0], s.avail);
  }

  /** A request for minus one by a process that holds nothing: it passes both comparisons, no search for a safe order
      comes to a dead end, and it makes the allocation negative. */
  lemma {:induction false} NegativeRequest() returns (s: State, req: Vec)
    ensures s == State([0], [[0]], [[0]], 1) && req == [-1]
    ensures Valid(s) && Safe(s) && Leq(req, s.need[0]) && Leq(req, s.avail) && !Covered(req, s.alloc[0])
    ensures NeverBlocked(Moved(s, 0, req)) && Moved(s, 0, req) == State([1], [[-1]], [[1]], 1)
  {
    s, req := State([0], [[0]], [[0]], 1), [-1];
    assert [0][..0] == [];
    assert SafeOrder(s, [0]);
    assert req[0] < -s.alloc[0][0];
    var r := Moved(s, 0, req);
    assert r.avail == [1] && r.alloc[0] == [-1] && r.need[0] == [1];
    OneProcessIff(r);
  }

  function Negate(v: Vec): (r: Vec) {
    seq(|v|, j requires 0 <= j < |v| => -v[j])
  }

  /** Taking back a move restores the state: the banker's roll-back. */
  lemma {:induction false} MoveBack(s: State, p: nat, v: Vec)
    requires Shaped(s) && p < |s.alloc| && |v| == |s.avail|
    ensures Moved(Moved(s, p, v), p, Negate(v)) == s
  {
    var r := Moved(Moved(s, p, v), p, Negate(v));
    assert r.avail == s.avail;
    assert r.alloc[p] == s.alloc[p] && r.alloc == s.alloc;
    assert r.need[p] == s.need[p] && r.need == s.need;
  }

  /** The total of resource j: in the pool and held by processes. */
  function Held(alloc: seq<Vec>, j: nat): (t: int)
    requires forall i :: 0 <= i < |alloc| ==> j < |alloc[i]|
  {
    if alloc == [] then 0 else Held(alloc[..|alloc| - 1], j) + alloc[|alloc| - 1][j]
  }

  function Total(s: State, j: nat): (t: int)
    requires Shaped(s) && j < |s.avail|
  {
    s.avail[j] + Held(s.alloc, j)
  }

  lemma {:induction false} HeldUpdate(alloc: seq<Vec>, p: nat, v: Vec, j: nat)
    requires p < |alloc| && j < |v| && forall i :: 0 <= i < |alloc| ==> j < |alloc[i]|
    ensures Held(alloc[p := v], j) == Held(alloc, j) + v[j] - alloc[p][j]
  {
    var n := |alloc| - 1;
    if p < n {
      HeldUpdate(alloc[..n], p, v, j);
      assert alloc[p := v][..n] == alloc[..n][p := v];
    } else {
      assert alloc[p := v][..n] == alloc[..n];
    }
  }

  /** No move creates or destroys resources. */
  lemma {:induction false} MoveConserves(s: State, p: nat, v: Vec, j: nat)
    requires Shaped(s) && p < |s.alloc| && |v| == |s.avail| && j < |v|
    ensures Total(Moved(s, p, v), j) == Total(s, j)
  {
    HeldUpdate(s.alloc, p, Add(s.alloc[p], v), j);
  }

  lemma {:induction false} PrefixOf(s: State, order: seq<nat>, n: nat)
    requires Processes(s, order) && n < |order|
    ensures Processes(s, order[..n]) && order[n] !in order[..n]
  {
  }

  /** After a move, what the processes of an order leave differs by the move itself, until p has finished. */
  lemma {:induction false} WorkMoved(s: State, p: nat, v: Vec, order: seq<nat>, j: nat)
    requires Shaped(s) && p < |s.alloc| && |v| == |s.avail| && j < |v|
    requires Processes(s, order)
    ensures Work(Moved(s, p, v), order)[j] == Work(s, order)[j] - if p in order then 0 else v[j]
  {
    hide Counting.NoRepeats;
    if order != [] {
      var n := |order| - 1;
      PrefixOf(s, order, n);
      WorkMoved(s, p, v, order[..n], j);
      assert order == order[..n] + [order[n]];
    }
  }

  /** Giving resources back keeps a safe state safe, with the same order. */
  lemma {:induction false} ReleaseSafe(s: State, p: nat, rel: Vec, order: seq<nat>)
    requires Valid(s) && p < |s.alloc| && |rel| == |s.avail| && NonNegative(rel) && Leq(rel, s.alloc[p])
    requires SafeOrder(s, order)
    ensures Valid(Moved(s, p, Negate(rel))) && SafeOrder(Moved(s, p, Negate(rel)), order)
  {
    var v := Negate(rel);
    MovedValid(s, p, v);
    var r := Moved(s, p, v);
    forall k | 0 <= k < |order| ensures Leq(r.need[order[k]], Work(r, order[..k])) {
      assert Leq(s.need[order[k]], Work(s, order[..k]));
      forall j | 0 <= j < |v| ensures r.need[order[k]][j] <= Work(r, order[..k])[j] {
        WorkMoved(s, p, v, order[..k], j);
      }
    }
  }

  /** Progress: in a safe state some process can be granted all it still needs at once. */
  lemma {:induction false} SomeoneCanFinish(s: State) returns (p: nat)
    requires Valid(s) && Safe(s) && s.nproc > 0
    ensures p < s.nproc && Grantable(s, p, s.need[p])
  {
    var order :| SafeOrder(s, order);
    p := order[0];
    assert order[..0] == [];
    assert Leq(s.need[p], Work(s, order[..0]));
    MovedValid(s, p, s.need[p]);
    var r := Moved(s, p, s.need[p]);
    forall k | 0 <= k < |order| ensures Leq(r.need[order[k]], Work(r, order[..k])) {
      assert Leq(s.need[order[k]], Work(s, order[..k]));
      forall j | 0 <= j < |s.avail| ensures r.need[order[k]][j] <= Work(r, order[..k])[j] {
        WorkMoved(s, p, s.need[p], order[..k], j);
        assert k > 0 ==> order[..k][0] == p;
      }
    }
    assert SafeOrder(r, order);
  }
}
