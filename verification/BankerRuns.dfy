/** Runs of the banker: requests, releases and declarations, and what all of them keep. */
module BankerRuns {
  import opened BankerSpec
  import Counting

  /** The first resource for which banker_release refuses, or the number of resources. */
  function FirstBad(rel: Vec, held: Vec, j: nat): (k: nat)
    requires j <= |rel| == |held|
    ensures j <= k <= |rel|
    ensures forall m :: j <= m < k ==> 0 <= rel[m] <= held[m]
    ensures k < |rel| ==> !(0 <= rel[k] <= held[k])
    decreases |rel| - j
  {
    if j == |rel| || rel[j] < 0 || rel[j] > held[j] then j else FirstBad(rel, held, j + 1)
  }

  /** Processes never declared need and hold nothing. */
  ghost predicate Idle(s: State) {
    forall i :: s.nproc <= i < |s.alloc| && i < |s.need| ==> Zero(s.alloc[i]) && Zero(s.need[i])
  }

  /** The state after process p has declared its demand, in tables whose needs are what is left of max. */
  function Declared(s: State, p: nat, demand: Vec): (r: State)
    requires Shaped(s) && p < |s.alloc| && |demand| == |s.avail|
  {
    s.(need := s.need[p := Remaining(demand, s.alloc[p])], nproc := if p < s.nproc then s.nproc else p + 1)
  }

  // ---- declarations

  /** The processes below n, in the order of the table. */
  function InOrder(n: nat): (r: seq<nat>)
    ensures |r| == n && forall k :: 0 <= k < n ==> r[k] == k
  {
    seq(n, k requires 0 <= k < n => k)
  }

  lemma {:induction false} HeldPrefix(s: State, n: nat, j: nat)
    requires Shaped(s) && n <= s.nproc && j < |s.avail|
    ensures Processes(s, InOrder(n)) && Work(s, InOrder(n))[j] == s.avail[j] + Held(s.alloc[..n], j)
  {
    if n > 0 {
      HeldPrefix(s, n - 1, j);
      assert InOrder(n)[..n - 1] == InOrder(n - 1);
      assert s.alloc[..n][..n - 1] == s.alloc[..n - 1];
    }
  }

  lemma {:induction false} HeldIdle(s: State, n: nat, j: nat)
    requires Shaped(s) && Idle(s) && s.nproc <= n <= |s.alloc| && j < |s.avail|
    ensures Held(s.alloc[..n], j) == Held(s.alloc[..s.nproc], j)
  {
    if n > s.nproc {
      HeldIdle(s, n - 1, j);
      assert s.alloc[..n][..n - 1] == s.alloc[..n - 1];
      assert Zero(s.alloc[n - 1]);
    }
  }

  /** Once every process has finished, the pool holds everything there is. */
  lemma {:induction false} AllGivenBack(s: State, order: seq<nat>, j: nat)
    requires Valid(s) && Idle(s) && Processes(s, order) && |order| == s.nproc && j < |s.avail|
    ensures Work(s, order)[j] == Total(s, j)
  {
    var all := InOrder(s.nproc);
    forall x: nat | x < s.nproc ensures x in order && x in all {
      if x !in order {
        Counting.RangeBoundWithout(order, s.nproc, x);
      }
      assert all[x] == x;
    }
    HeldPrefix(s, s.nproc, j);
    HeldIdle(s, |s.alloc|, j);
    assert s.alloc[..|s.alloc|] == s.alloc;
    WorkMonotone(s, order, all, j);
    WorkMonotone(s, all, order, j);
  }

  lemma {:induction false} PoolNonNegative(s: State, order: seq<nat>)
    requires Valid(s) && Processes(s, order)
    ensures NonNegative(Work(s, order))
  {
    if order != [] {
      PoolNonNegative(s, order[..|order| - 1]);
    }
  }

  /** A process that holds nothing is not needed for the others to finish. */
  lemma {:induction false} FinishWithout(s: State, order: seq<nat>, k: nat)
    requires Shaped(s) && Finishes(s, order) && k < |order| && Zero(s.alloc[order[k]])
    ensures Finishes(s, order[..k] + order[k + 1..])
  {
    hide Work;
    var rest := order[..k] + order[k + 1..];
    forall m | 0 <= m < |rest| ensures Processes(s, rest[..m]) && Leq(s.need[rest[m]], Work(s, rest[..m])) {
      if m < k {
        assert rest[..m] == order[..m];
      } else {
        SameWithout(s, order[..m + 1], k);
        assert rest[..m] == order[..m + 1][..k] + order[..m + 1][k + 1..];
        assert rest[m] == order[m + 1];
      }
    }
  }

  lemma {:induction false} SameWithout(s: State, order: seq<nat>, k: nat)
    requires Shaped(s) && Processes(s, order) && k < |order| && Zero(s.alloc[order[k]])
    ensures Processes(s, order[..k] + order[k + 1..]) && Work(s, order[..k] + order[k + 1..]) == Work(s, order)
  {
    hide Work;
    var rest := order[..k] + order[k + 1..];
    forall j | 0 <= j < |s.avail| ensures Processes(s, rest) && Work(s, rest)[j] == Work(s, order)[j] {
      WorkWithout(s, order, k, j);
    }
    assert Processes(s, rest);
  }

  /** What the declaration of p does to an order without p: nothing. */
  lemma {:induction false} DeclaredWork(s: State, p: nat, demand: Vec, order: seq<nat>)
    requires Shaped(s) && p < |s.alloc| && |demand| == |s.avail| && Processes(s, order)
    ensures Shaped(Declared(s, p, demand)) && Processes(Declared(s, p, demand), order)
    ensures Work(Declared(s, p, demand), order) == Work(s, order)
  {
    if order != [] {
      DeclaredWork(s, p, demand, order[..|order| - 1]);
    }
  }

  lemma {:induction false} OthersFinish(s: State, p: nat, demand: Vec, order: seq<nat>)
    requires Shaped(s) && p < |s.alloc| && |demand| == |s.avail| && Finishes(s, order) && p !in order
    ensures Shaped(Declared(s, p, demand)) && Finishes(Declared(s, p, demand), order)
  {
    hide Work;
    DeclaredWork(s, p, demand, order);
    var r := Declared(s, p, demand);
    forall k | 0 <= k < |order| ensures Leq(r.need[order[k]], Work(r, order[..k])) {
      DeclaredWork(s, p, demand, order[..k]);
      assert order[k] in order;
    }
  }

  /** Processes that need nothing can always finish. */
  lemma {:induction false} IdleFinish(s: State, order: seq<nat>, n: nat) returns (longer: seq<nat>)
    requires Valid(s) && Finishes(s, order) && |order| <= n <= s.nproc
    requires forall k :: 0 <= k < |order| ==> order[k] < |order|
    requires forall i :: |order| <= i < n ==> Zero(s.need[i])
    ensures Finishes(s, longer) && |longer| == n && forall k :: 0 <= k < |longer| ==> longer[k] < n
    decreases n - |order|
  {
    hide Work;
    if |order| == n {
      longer := order;
    } else {
      PoolNonNegative(s, order);
      assert Zero(s.need[|order|]);
      FinishesMore(s, order, |order|);
      longer := IdleFinish(s, order + [|order|], n);
    }
  }

  lemma {:induction false} DeclaredValid(s: State, p: nat, demand: Vec)
    requires Valid(s) && Idle(s) && p < |s.alloc| && |demand| == |s.avail|
    ensures Valid(Declared(s, p, demand)) && Idle(Declared(s, p, demand))
    ensures forall j :: 0 <= j < |s.avail| ==> Total(Declared(s, p, demand), j) == Total(s, j)
  {
  }

  /** An order of all the other processes in which they finish. */
  lemma {:induction false} AllButOne(s: State, p: nat, demand: Vec) returns (order: seq<nat>)
    requires Valid(s) && Idle(s) && Safe(s) && p < |s.alloc| && |demand| == |s.avail| && Zero(s.alloc[p])
    ensures var r := Declared(s, p, demand);
            Valid(r) && Finishes(r, order) && p !in order && |order| == r.nproc - 1
  {
    hide Work, Leq;
    var r := Declared(s, p, demand);
    DeclaredValid(s, p, demand);
    var all :| SafeOrder(s, all);
    if p < s.nproc {
      if p !in all {
        Counting.RangeBoundWithout(all, s.nproc, p);
      }
      var k :| 0 <= k < |all| && all[k] == p;
      order := all[..k] + all[k + 1..];
      FinishWithout(s, all, k);
      OthersFinish(s, p, demand, order);
    } else {
      OthersFinish(s, p, demand, all);
      order := IdleFinish(r, all, p);
    }
  }

  /** A declaration by a process that holds nothing keeps a safe state safe if and only if there is as much of every
      resource as is demanded. banker_setmax does not look. */
  lemma {:induction false} DeclareSafeIff(s: State, p: nat, demand: Vec)
    requires Valid(s) && Idle(s) && Safe(s) && p < |s.alloc| && |demand| == |s.avail| && Zero(s.alloc[p])
    ensures Valid(Declared(s, p, demand))
    ensures Safe(Declared(s, p, demand)) <==> forall j :: 0 <= j < |demand| ==> demand[j] <= Total(s, j)
  {
    hide Work;
    var r := Declared(s, p, demand);
    DeclaredValid(s, p, demand);
    var others := AllButOne(s, p, demand);
    WorkMore(r, others, p);
    PoolNonNegative(r, others);
    forall j | 0 <= j < |demand| ensures Work(r, others)[j] == Total(s, j) {
      AllGivenBack(r, others + [p], j);
    }
    if Leq(r.need[p], Work(r, others)) {
      FinishesMore(r, others, p);
      assert SafeOrder(r, others + [p]);
    } else {
      StuckIsUnsafe(r, others) by {
        forall i: nat | i < r.nproc && i !in others ensures !Leq(r.need[i], Work(r, others)) {
          if i != p {
            Counting.RangeBoundWithout(others + [p], r.nproc, i);
          }
        }
      }
    }
  }

  /** A declaration that leaves no more need than before keeps a safe state safe. */
  lemma {:induction false} LessSafe(s: State, p: nat, demand: Vec)
    requires Valid(s) && Idle(s) && Safe(s) && p < s.nproc && |demand| == |s.avail|
    requires Leq(Remaining(demand, s.alloc[p]), s.need[p])
    ensures Valid(Declared(s, p, demand)) && Safe(Declared(s, p, demand))
  {
    hide Work;
    var r := Declared(s, p, demand);
    DeclaredValid(s, p, demand);
    var order :| SafeOrder(s, order);
    DeclaredWork(s, p, demand, order);
    forall k | 0 <= k < |order| ensures Leq(r.need[order[k]], Work(r, order[..k])) {
      DeclaredWork(s, p, demand, order[..k]);
    }
    assert SafeOrder(r, order);
  }

  // ---- any sequence of requests, releases and declarations

  datatype Action = Ask(p: nat, v: Vec) | Give(p: nat, v: Vec) | Declare(p: nat, v: Vec)

  ghost predicate Sized(s: State, a: Action) {
    a.p < |s.alloc| && |a.v| == |s.avail|
  }

  /** The state after an action, granted or refused, as Request, Release and SetMax leave it. */
  ghost function Act(s: State, a: Action): (r: State)
    requires Shaped(s) && Sized(s, a)
  {
    match a
    case Ask(p, v) => if Grantable(s, p, v) then Moved(s, p, v) else s
    case Give(p, v) => Moved(s, p, Negate(Upto(v, FirstBad(v, s.alloc[p], 0))))
    case Declare(p, v) => Declared(s, p, v)
  }

  /** Requests hand back no more than is held; who holds nothing declares no more than there is, and who holds
      something no more than before. */
  ghost predicate Sensible(s: State, a: Action)
    requires Shaped(s) && Sized(s, a)
  {
    match a
    case Ask(p, v) => Covered(v, s.alloc[p])
    case Give(p, v) => true
    case Declare(p, v) =>
      || (Zero(s.alloc[p]) && forall j :: 0 <= j < |v| ==> v[j] <= Total(s, j))
      || (p < s.nproc && Leq(Remaining(v, s.alloc[p]), s.need[p]))
  }

  lemma {:induction false} NothingMoved(s: State, p: nat, v: Vec)
    requires Shaped(s) && p < |s.alloc| && |v| == |s.avail|
    ensures Moved(s, p, v) == s <==> Zero(v)
  {
    var r := Moved(s, p, v);
    assert forall j :: 0 <= j < |v| ==> r.avail[j] == s.avail[j] - v[j];
    if Zero(v) {
      assert r.avail == s.avail && r.alloc[p] == s.alloc[p] && r.need[p] == s.need[p];
    }
  }

  /** Processes never declared cannot move anything. */
  lemma {:induction false} MovedIdle(s: State, p: nat, v: Vec)
    requires Shaped(s) && Idle(s) && p < |s.alloc| && |v| == |s.avail|
    requires forall j :: 0 <= j < |v| ==> -s.alloc[p][j] <= v[j] && (v[j] <= s.need[p][j] || v[j] <= 0)
    ensures Idle(Moved(s, p, v))
  {
    if p >= s.nproc {
      assert Zero(s.alloc[p]) && Zero(s.need[p]);
      NothingMoved(s, p, v);
    }
  }

  lemma {:induction false} MoveKeeps(s: State, p: nat, v: Vec)
    requires Valid(s) && Idle(s) && p < |s.alloc| && |v| == |s.avail|
    requires forall j :: 0 <= j < |v| ==> -s.alloc[p][j] <= v[j] <= s.need[p][j] && v[j] <= s.avail[j]
    ensures Valid(Moved(s, p, v)) && Idle(Moved(s, p, v))
    ensures forall j :: 0 <= j < |v| ==> Total(Moved(s, p, v), j) == Total(s, j)
  {
    MovedValid(s, p, v);
    MovedIdle(s, p, v);
    forall j | 0 <= j < |v| ensures Total(Moved(s, p, v), j) == Total(s, j) {
      MoveConserves(s, p, v, j);
    }
  }

  /** Every action, also a refused one, keeps a safe state safe and the resources constant. */
  lemma {:induction false} ActKeeps(s: State, a: Action)
    requires Valid(s) && Idle(s) && Sized(s, a) && Sensible(s, a) && Safe(s)
    ensures var r := Act(s, a);
            && Valid(r) && Idle(r) && Safe(r) && |r.avail| == |s.avail| && r.nproc >= s.nproc
            && forall j :: 0 <= j < |s.avail| ==> Total(r, j) == Total(s, j)
  {
    hide Total, Safe;
    match a
    case Ask(p, v) =>
      if Grantable(s, p, v) {
        MoveKeeps(s, p, v);
      }
    case Give(p, v) =>
      var rel := Upto(v, FirstBad(v, s.alloc[p], 0));
      MoveKeeps(s, p, Negate(rel));
      KeepsOrder(s, p, rel);
    case Declare(p, v) =>
      DeclaredValid(s, p, v);
      if p < s.nproc && Leq(Remaining(v, s.alloc[p]), s.need[p]) {
        LessSafe(s, p, v);
      } else {
        DeclareSafeIff(s, p, v);
      }
  }

  lemma {:induction false} KeepsOrder(s: State, p: nat, rel: Vec)
    requires Valid(s) && p < |s.alloc| && |rel| == |s.avail| && NonNegative(rel) && Leq(rel, s.alloc[p]) && Safe(s)
    ensures Safe(Moved(s, p, Negate(rel)))
  {
    var order :| SafeOrder(s, order);
    ReleaseSafe(s, p, rel, order);
  }

  /** A run of actions, each applied to the state the previous one left. */
  ghost predicate Run(ss: seq<State>, acts: seq<Action>) {
    && |ss| == |acts| + 1
    && forall k :: 0 <= k < |acts| ==>
         Shaped(ss[k]) && Sized(ss[k], acts[k]) && Sensible(ss[k], acts[k]) && ss[k + 1] == Act(ss[k], acts[k])
  }

  /** Deadlock is avoided for ever: along every run from a safe state, each state is safe, no resource is
      lost or invented, and while there are processes one of them can be given all it still needs. */
  lemma {:induction false} RunStaysSafe(ss: seq<State>, acts: seq<Action>, k: nat) returns (p: nat)
    requires Run(ss, acts) && Valid(ss[0]) && Idle(ss[0]) && Safe(ss[0]) && k <= |acts|
    ensures var s := ss[k];
            && Valid(s) && Idle(s) && Safe(s) && |s.avail| == |ss[0].avail| && s.nproc >= ss[0].nproc
            && (forall j :: 0 <= j < |s.avail| ==> Total(s, j) == Total(ss[0], j))
            && (s.nproc > 0 ==> p < s.nproc && Grantable(s, p, s.need[p]))
  {
    hide Act, Total, Safe, Sensible, Grantable;
    if k > 0 {
      var _ := RunStaysSafe(ss, acts, k - 1);
      ActKeeps(ss[k - 1], acts[k - 1]);
      assert ss[k - 1 + 1] == Act(ss[k - 1], acts[k - 1]);
    }
    p := 0;
    if ss[k].nproc > 0 {
      p := SomeoneCanFinish(ss[k]);
    }
  }

  /** The state that banker_init leaves is one from which such runs start. */
  lemma {:induction false} StartsSafe(s: State)
    requires Valid(s) && s.nproc == 0
    ensures Safe(s)
  {
    assert SafeOrder(s, []);
  }

  /** A refused release leaves the state alone exactly when it asks for nothing before its first bad entry. */
  lemma {:induction false} ReleaseAtomicIff(s: State, p: nat, rel: Vec)
    requires Shaped(s) && Sized(s, Give(p, rel))
    ensures var bad := FirstBad(rel, s.alloc[p], 0);
            Act(s, Give(p, rel)) == s <==> forall j :: 0 <= j < bad ==> rel[j] == 0
  {
    var bad := FirstBad(rel, s.alloc[p], 0);
    var v := Negate(Upto(rel, bad));
    NothingMoved(s, p, v);
    assert forall j :: 0 <= j < |v| ==> v[j] == if j < bad then -rel[j] else 0;
  }

  /** A refused release that has nevertheless changed the state. */
  lemma {:induction false} ReleaseNotAtomic() returns (s: State, rel: Vec)
    ensures Valid(s) && Sized(s, Give(0, rel))
    ensures FirstBad(rel, s.alloc[0], 0) < |rel| && Act(s, Give(0, rel)) != s
  {
    s := State([0, 0], [[1, 1]], [[0, 0]], 1);
    rel := [1, 2];
    assert FirstBad(rel, s.alloc[0], 0) == 1;
    ReleaseAtomicIff(s, 0, rel);
  }
}
