/** kernel/banker.c: the tables, the greedy safety check and the operations, against BankerSpec. */
module Banker {
  import opened BankerRuns
  import opened BankerSpec
  import Counting

  ghost predicate MaxShaped(s: State, max: seq<Vec>) {
    |max| == |s.alloc| && forall i :: 0 <= i < |max| ==> |max[i]| == |s.avail|
  }

  /** The tables have one shape, and rows of processes never declared are zero. */
  ghost predicate Tables(s: State, max: seq<Vec>) {
    Valid(s) && Idle(s) && MaxShaped(s, max) && forall i :: s.nproc <= i < |max| ==> Zero(max[i])
  }

  /** Need is what is left of max: so as long as nobody has declared less than it holds. */
  ghost predicate Exact(s: State, max: seq<Vec>) {
    && |max| <= |s.alloc| && |max| <= |s.need|
    && forall i :: 0 <= i < |max| ==> |max[i]| == |s.alloc[i]| && s.need[i] == Sub(max[i], s.alloc[i])
  }

  /** A move within bounds keeps the tables in agreement. */
  lemma {:induction false} TablesMoved(s: State, max: seq<Vec>, p: nat, v: Vec)
    requires Tables(s, max) && p < |max| && |v| == |s.avail|
    requires forall j :: 0 <= j < |v| ==> -s.alloc[p][j] <= v[j] <= s.need[p][j] && v[j] <= s.avail[j]
    ensures Tables(Moved(s, p, v), max)
  {
    MovedValid(s, p, v);
    MovedIdle(s, p, v);
  }

  /** Every move keeps need what is left of max. */
  lemma {:induction false} ExactMoved(s: State, max: seq<Vec>, p: nat, v: Vec)
    requires Shaped(s) && MaxShaped(s, max) && p < |max| && |v| == |s.avail| && Exact(s, max)
    ensures Exact(Moved(s, p, v), max)
  {
    assert Moved(s, p, v).need[p] == Sub(max[p], Moved(s, p, v).alloc[p]);
  }

  /** A request within need and pool leaves proper tables exactly if it hands back no more than is held. */
  lemma {:induction false} RequestTables(s: State, max: seq<Vec>, p: nat, req: Vec)
    requires Tables(s, max) && p < |max| && |req| == |s.avail| && Leq(req, s.need[p]) && Leq(req, s.avail)
    ensures Tables(Moved(s, p, req), max) <==> Covered(req, s.alloc[p])
  {
    RequestValidIff(s, p, req);
    if Covered(req, s.alloc[p]) {
      TablesMoved(s, max, p, req);
    }
  }

  /** Moving one more resource. */
  lemma {:induction false} MovedStep(s: State, p: nat, v: Vec, j: nat)
    requires Shaped(s) && p < |s.alloc| && j < |v| == |s.avail|
    ensures var r := Moved(s, p, Upto(v, j));
            Moved(s, p, Upto(v, j + 1)) ==
            r.(avail := r.avail[j := r.avail[j] - v[j]],
               alloc := r.alloc[p := r.alloc[p][j := r.alloc[p][j] + v[j]]],
               need := r.need[p := r.need[p][j := r.need[p][j] - v[j]]])
  {
    var q, r := Moved(s, p, Upto(v, j + 1)), Moved(s, p, Upto(v, j));
    assert q.avail == r.avail[j := r.avail[j] - v[j]];
    assert q.alloc[p] == r.alloc[p][j := r.alloc[p][j] + v[j]];
    assert q.need[p] == r.need[p][j := r.need[p][j] - v[j]];
  }

  /** A loop over the resources has not touched entry j before round j. */
  lemma {:induction false} MovedEntry(s: State, p: nat, v: Vec, j: nat)
    requires Shaped(s) && p < |s.alloc| && j < |v| == |s.avail|
    ensures var r := Moved(s, p, Upto(v, j));
            && |r.alloc| == |s.alloc| == |r.need| && |r.avail| == |r.alloc[p]| == |r.need[p]| == |s.avail|
            && r.alloc[p][j] == s.alloc[p][j]
  {
  }

  lemma {:induction false} NegateAt(v: Vec)
    ensures |Negate(v)| == |v| && forall j :: 0 <= j < |v| ==> Negate(v)[j] == -v[j]
  {
  }

  lemma {:induction false} MovedNone(s: State, p: nat, v: Vec)
    requires Shaped(s) && p < |s.alloc| && |v| == |s.avail|
    ensures Moved(s, p, Upto(v, 0)) == s
    ensures Moved(s, p, Upto(v, |v|)) == Moved(s, p, v)
  {
    var r := Moved(s, p, Upto(v, 0));
    assert r.avail == s.avail && r.alloc[p] == s.alloc[p] && r.need[p] == s.need[p];
    assert Upto(v, |v|) == v;
  }

  // ---- the loop state of is_safe

  /** The processes in order have finished, work is what they leave, and finish marks exactly them. */
  ghost predicate Progress(s: State, work: Vec, finish: seq<bool>, order: seq<nat>) {
    && Shaped(s) && Finishes(s, order) && work == Work(s, order)
    && |finish| == s.nproc && forall i :: 0 <= i < s.nproc ==> (finish[i] <==> i in order)
  }

  /** None of the first n processes that are not finished can finish with work. */
  ghost predicate Stuck(s: State, work: Vec, finish: seq<bool>, n: nat) {
    && n <= |finish| == s.nproc <= |s.need|
    && forall i :: 0 <= i < n && !finish[i] ==> |s.need[i]| == |work| && !Leq(s.need[i], work)
  }

  lemma {:induction false} ProgressShape(s: State, work: Vec, finish: seq<bool>, order: seq<nat>)
    requires Progress(s, work, finish, order)
    ensures |finish| == s.nproc && |work| == |s.avail| && |order| <= s.nproc
  {
    Counting.RangeBound(order, s.nproc);
  }

  lemma {:induction false} Start(s: State)
    requires Shaped(s)
    ensures Progress(s, s.avail, seq(s.nproc, _ => false), [])
  {
  }

  lemma {:induction false} Extend(s: State, work: Vec, finish: seq<bool>, order: seq<nat>, i: nat)
    requires Progress(s, work, finish, order) && i < s.nproc && !finish[i] && Leq(s.need[i], work)
    ensures Progress(s, Add(work, s.alloc[i]), finish[i := true], order + [i])
  {
    hide Work, Finishes;
    FinishesMore(s, order, i);
  }

  lemma {:induction false} Verdict(s: State, work: Vec, finish: seq<bool>, order: seq<nat>)
    requires Progress(s, work, finish, order) && Stuck(s, work, finish, s.nproc) && |order| <= s.nproc
    ensures |order| == s.nproc ==> SafeOrder(s, order) && Safe(s)
    ensures |order| < s.nproc ==> Blocked(s, order)
    ensures Valid(s) && Safe(s) ==> |order| == s.nproc
  {
    if |order| == s.nproc {
      assert SafeOrder(s, order);
    } else if Valid(s) {
      StuckIsUnsafe(s, order);
    }
  }

  class Banker {
    const maxProc: nat
    var initialized: bool
    var nres: nat
    var nproc: nat
    var available: Vec
    var max: seq<Vec>
    var allocation: seq<Vec>
    var need: seq<Vec>

    ghost function Abs(): (s: State)
      reads this
    {
      State(available, allocation, need, nproc)
    }

    /** The tables have their sizes, whatever is in them. */
    ghost predicate Made()
      reads this
    {
      |available| == nres && |allocation| == maxProc && Shaped(Abs()) && MaxShaped(Abs(), max)
    }

    ghost predicate Ok()
      reads this
    {
      initialized && Made() && Tables(Abs(), max)
    }

    constructor (maxProc: nat)
      ensures !initialized && this.maxProc == maxProc
    {
      this.maxProc := maxProc;
      initialized, nres, nproc := false, 0, 0;
      available, max, allocation, need := [], [], [], [];
    }

    /** The inner test of is_safe: need[i] <= work. */
    method Fits(i: nat, work: Vec) returns (ok: bool)
      requires i < |need| && |need[i]| == |work| == nres
      ensures ok <==> Leq(need[i], work)
    {
      for j := 0 to nres
        invariant forall k :: 0 <= k < j ==> need[i][k] <= work[k]
      {
        if need[i][j] > work[j] {
          return false;
        }
      }
      ok := true;
    }

    method Reclaim(i: nat, work: Vec) returns (w: Vec)
      requires i < |allocation| && |allocation[i]| == |work| == nres
      ensures w == Add(work, allocation[i])
    {
      w := work;
      for j := 0 to nres
        invariant |w| == nres
        invariant forall k :: 0 <= k < nres ==> w[k] == if k < j then work[k] + allocation[i][k] else work[k]
      {
        w := w[j := w[j] + allocation[i][j]];
      }
    }

    /** One sweep over the processes: finishes every process it finds able to. */
    method Sweep(work0: Vec, finish0: seq<bool>, order0: seq<nat>)
      returns (work: Vec, finish: seq<bool>, order: seq<nat>, found: bool)
      requires Made() && Progress(Abs(), work0, finish0, order0)
      ensures Progress(Abs(), work, finish, order)
      ensures |order0| <= |order| && (found <==> |order| > |order0|)
      ensures !found ==> Stuck(Abs(), work, finish, nproc)
    {
      hide Progress;
      work, finish, order, found := work0, finish0, order0, false;
      ghost var s := Abs();
      ProgressShape(s, work, finish, order);
      for i := 0 to nproc
        invariant Progress(s, work, finish, order)
        invariant |order0| <= |order| && (found <==> |order| > |order0|)
        invariant !found ==> Stuck(s, work, finish, i)
      {
        ProgressShape(s, work, finish, order);
        if !finish[i] {
          var ok := Fits(i, work);
          if ok {
            Extend(s, work, finish, order, i);
            work := Reclaim(i, work);
            order := order + [i];
            finish := finish[i := true];
            found := true;
          }
        }
      }
    }

    /** is_safe: what it returns is a safe order, or a dead end in which nobody else can finish; on proper tables it
        finds a safe order exactly when there is one. */
    method IsSafe() returns (ok: bool, order: seq<nat>)
      requires Made()
      ensures ok ==> SafeOrder(Abs(), order) && Safe(Abs())
      ensures !ok ==> Blocked(Abs(), order)
      ensures Valid(Abs()) ==> (ok <==> Safe(Abs()))
    {
      hide Safe, Work, Finishes;
      var work, finish, found := available, seq(nproc, _ => false), true;
      order := [];
      Start(Abs());
      while found
        invariant Progress(Abs(), work, finish, order) && |order| <= nproc
        invariant !found ==> Stuck(Abs(), work, finish, nproc)
        decreases nproc - |order|, found
      {
        work, finish, order, found := Sweep(work, finish, order);
        ProgressShape(Abs(), work, finish, order);
      }
      ok := |order| == nproc;
      Verdict(Abs(), work, finish, order);
    }

    /** One resource moved between the pool and process p, as each round of the update loops does. */
    method MoveOne(p: nat, j: nat, x: int)
      requires p < |allocation| == |need| && j < |available| == |allocation[p]| == |need[p]|
      modifies this`available, this`allocation, this`need
      ensures available == old(available)[j := old(available)[j] - x]
      ensures allocation == old(allocation)[p := old(allocation)[p][j := old(allocation)[p][j] + x]]
      ensures need == old(need)[p := old(need)[p][j := old(need)[p][j] - x]]
    {
      available := available[j := available[j] - x];
      allocation := allocation[p := allocation[p][j := allocation[p][j] + x]];
      need := need[p := need[p][j := need[p][j] - x]];
    }

    /** The update loop of banker_request, and with -req its roll-back. */
    method Move(p: nat, v: Vec)
      requires Shaped(Abs()) && p < |allocation| && |v| == |available| == nres
      modifies this`available, this`allocation, this`need
      ensures Abs() == Moved(old(Abs()), p, v)
    {
      ghost var s := Abs();
      MovedNone(s, p, v);
      for j := 0 to nres
        invariant Abs() == Moved(s, p, Upto(v, j))
      {
        MovedStep(s, p, v, j);
        MoveOne(p, j, v[j]);
      }
    }

    method Exceeds(v: Vec, bound: Vec) returns (over: bool)
      requires |v| == |bound|
      ensures over <==> !Leq(v, bound)
    {
      for j := 0 to |v|
        invariant forall k :: 0 <= k < j ==> v[k] <= bound[k]
      {
        if v[j] > bound[j] {
          return true;
        }
      }
      over := false;
    }

    /** banker_request: in proper tables granted exactly when the request is within need, available and safe; in any
        tables what is granted is so, and what is so and leads to no dead end is granted. Otherwise the state is as
        before. */
    method Request(pid: int, req: Vec) returns (granted: bool)
      requires initialized ==> Made() && |req| == nres
      modifies this`available, this`allocation, this`need
      ensures granted ==> initialized && 0 <= pid < maxProc && Grantable(old(Abs()), pid, req)
      ensures (initialized && 0 <= pid < maxProc && Leq(req, old(need)[pid]) && Leq(req, old(available))
               && NeverBlocked(Moved(old(Abs()), pid, req))) ==> granted
      ensures Abs() == (if granted then Moved(old(Abs()), pid, req) else old(Abs()))
      ensures old(Ok()) && 0 <= pid < maxProc && Covered(req, old(allocation)[pid]) ==>
                (granted <==> Grantable(old(Abs()), pid, req)) && Abs() == Act(old(Abs()), Ask(pid, req))
      ensures initialized ==> Made() && (Exact(old(Abs()), max) ==> Exact(Abs(), max))
      ensures old(Ok()) ==> (Ok() <==> (granted ==> Covered(req, old(allocation)[pid])))
    {
      if !initialized || pid < 0 || pid >= maxProc {
        return false;
      }
      hide Exact, Safe, Blocked, Covered, Tables;
      var over := Exceeds(req, need[pid]);
      if over {
        return false;
      }
      over := Exceeds(req, available);
      if over {
        return false;
      }
      ghost var s := Abs();
      RequestMoved(s, max, pid, req);
      Move(pid, req);
      var safe, _ := IsSafe();
      if !safe {
        MoveBack(s, pid, req);
        Move(pid, Negate(req));
        return false;
      }
      granted := true;
    }

    /** The loop of banker_release, which checks and updates one resource at a time. */
    method GiveBack(p: nat, rel: Vec) returns (ok: bool)
      requires Shaped(Abs()) && p < |allocation| && |rel| == |available| == nres
      modifies this`available, this`allocation, this`need
      ensures ok <==> FirstBad(rel, old(allocation)[p], 0) == nres
      ensures Abs() == Moved(old(Abs()), p, Upto(Negate(rel), FirstBad(rel, old(allocation)[p], 0)))
    {
      hide FirstBad, Moved, Upto, Negate;
      ghost var s, v := Abs(), Negate(rel);
      NegateAt(rel);
      ghost var bad := FirstBad(rel, s.alloc[p], 0);
      MovedNone(s, p, v);
      var j := 0;
      while j < nres
        invariant j <= bad && j <= nres && Abs() == Moved(s, p, Upto(v, j))
      {
        MovedEntry(s, p, v, j);
        if rel[j] < 0 || rel[j] > allocation[p][j] {
          return false;
        }
        MovedStep(s, p, v, j);
        MoveOne(p, j, -rel[j]);
        j := j + 1;
      }
      ok := true;
    }

    /** banker_release. A refused release has already given back the resources before the first bad one. */
    method Release(pid: int, rel: Vec) returns (ok: bool)
      requires initialized ==> Made() && |rel| == nres
      modifies this`available, this`allocation, this`need
      ensures ok <==> initialized && 0 <= pid < maxProc && FirstBad(rel, old(allocation)[pid], 0) == nres
      ensures !initialized || pid < 0 || pid >= maxProc ==> Abs() == old(Abs())
      ensures initialized && 0 <= pid < maxProc ==> Abs() == Act(old(Abs()), Give(pid, rel))
      ensures initialized ==> Made() && (Exact(old(Abs()), max) ==> Exact(Abs(), max))
      ensures old(Ok()) ==> Ok()
    {
      if !initialized || pid < 0 || pid >= maxProc {
        return false;
      }
      hide Exact, Tables, FirstBad;
      GiveMoves(Abs(), max, pid, rel);
      ok := GiveBack(pid, rel);
    }

    method RecomputeRow(i: nat)
      requires i < |max| == |allocation| == |need| && |max[i]| == |allocation[i]| == |need[i]| == nres
      modifies this`need
      ensures need == old(need)[i := Remaining(max[i], allocation[i])]
    {
      for j := 0 to nres
        invariant |need| == |old(need)| && |need[i]| == nres
        invariant forall m :: 0 <= m < |need| && m != i ==> need[m] == old(need)[m]
        invariant need[i][..j] == Remaining(max[i], allocation[i])[..j]
      {
        var d := max[i][j] - allocation[i][j];
        need := need[i := need[i][j := d]];
        if need[i][j] < 0 {
          need := need[i := need[i][j := 0]];
        }
      }
      assert need[i] == Remaining(max[i], allocation[i]);
    }

    /** recompute_need, with its clamp at zero. */
    method RecomputeNeed()
      requires nproc <= |max| == |allocation| == |need|
      requires forall i :: 0 <= i < |max| ==> |max[i]| == |allocation[i]| == |need[i]| == nres
      modifies this`need
      ensures |need| == |old(need)|
      ensures forall i :: 0 <= i < |need| ==> need[i] == if i < nproc then Remaining(max[i], allocation[i])
              else old(need)[i]
    {
      for i := 0 to nproc
        invariant |need| == |old(need)|
        invariant forall m :: 0 <= m < |need| ==> need[m] == if m < i then Remaining(max[m], allocation[m])
                  else old(need)[m]
      {
        RecomputeRow(i);
      }
    }

    /** banker_init. */
    method Init(n: int, avail: Vec, maxRes: nat) returns (ok: bool)
      requires 0 < n <= maxRes ==> |avail| == n
      modifies this
      ensures ok <==> 0 < n <= maxRes
      ensures ok ==> initialized && Made() && available == avail && nproc == 0 && nres == n
      ensures ok ==> (Ok() <==> NonNegative(avail))
      ensures ok ==> Exact(Abs(), max)
      ensures ok ==> forall i :: 0 <= i < maxProc ==> Zero(max[i]) && Zero(allocation[i]) && Zero(need[i])
      ensures !ok ==> unchanged(this)
    {
      if n <= 0 || n > maxRes {
        return false;
      }
      var zero: Vec := seq(n, _ => 0);
      nres, nproc, available := n, 0, avail;
      max, allocation, need := seq(maxProc, _ => zero), seq(maxProc, _ => zero), seq(maxProc, _ => zero);
      initialized := true;
      ok := true;
    }

    /** banker_setmax: every need of a process in use is recomputed; that touches other rows than pid's only where the
        need was not what is left of max. Resources do not move. */
    method SetMax(pid: int, demand: Vec) returns (ok: bool)
      requires initialized ==> Made() && |demand| == nres
      modifies this`max, this`need, this`nproc
      ensures ok <==> initialized && 0 <= pid < maxProc
      ensures !ok ==> unchanged(this)
      ensures ok ==> Made() && pid < nproc && max == old(max)[pid := demand]
      ensures ok ==> nproc == (if pid < old(nproc) then old(nproc) else pid + 1)
      ensures ok ==> forall i :: 0 <= i < nproc ==> need[i] == Remaining(max[i], allocation[i])
      ensures ok && old(Ok()) ==> Ok()
      ensures ok && old(Ok() && Exact(Abs(), max)) ==> Abs() == Act(old(Abs()), Declare(pid, demand))
      ensures ok && old(Ok() && Exact(Abs(), max)) ==> (Exact(Abs(), max) <==> Leq(allocation[pid], demand))
    {
      if !initialized || pid < 0 || pid >= maxProc {
        return false;
      }
      hide Tables, Exact, Remaining, Declared;
      ghost var s, was := Abs(), max;
      max := max[pid := demand];
      if pid + 1 > nproc {
        nproc := pid + 1;
      }
      RecomputeNeed();
      Recomputed(s, was, pid, demand, Abs());
      ok := true;
    }
  }

  lemma {:induction false} RowsStayValid(max: seq<Vec>, alloc: seq<Vec>, n: nat)
    requires n <= |max| == |alloc| && forall i :: 0 <= i < |max| ==> |max[i]| == |alloc[i]|
    ensures forall i :: 0 <= i < n ==>
              |Remaining(max[i], alloc[i])| == |max[i]| && NonNegative(Remaining(max[i], alloc[i]))
  {
  }

  /** Recomputed needs make proper tables again. */
  lemma {:induction false} NewRows(s: State, max: seq<Vec>, pid: nat, demand: Vec, r: State)
    requires Tables(s, max) && pid < |max| && |demand| == |s.avail|
    requires |r.need| == |s.need| && r.alloc == s.alloc && r.avail == s.avail
    requires pid < r.nproc <= |max| && s.nproc <= r.nproc && (r.nproc > s.nproc ==> r.nproc == pid + 1)
    requires forall i :: 0 <= i < |max| ==> |max[pid := demand][i]| == |s.alloc[i]|
    requires forall i :: 0 <= i < |r.need| ==>
               r.need[i] == if i < r.nproc then Remaining(max[pid := demand][i], s.alloc[i]) else s.need[i]
    ensures Tables(r, max[pid := demand])
  {
    RowsStayValid(max[pid := demand], s.alloc, r.nproc);
  }

  lemma {:induction false} RemainingIff(max: Vec, held: Vec)
    requires |max| == |held|
    ensures Remaining(max, held) == Sub(max, held) <==> Leq(held, max)
  {
    if !Leq(held, max) {
      var j :| 0 <= j < |held| && held[j] > max[j];
      assert Remaining(max, held)[j] != Sub(max, held)[j];
    }
  }

  /** Where the other needs are what is left of max, recomputing them changes nothing. */
  lemma {:induction false} OneRowChanged(s: State, max: seq<Vec>, pid: nat, demand: Vec, r: State)
    requires Tables(s, max) && Exact(s, max) && pid < |max| && |demand| == |s.avail|
    requires |r.need| == |s.need| && r.alloc == s.alloc && pid < r.nproc <= |max|
    requires forall i :: 0 <= i < |r.need| ==>
               r.need[i] == if i < r.nproc then Remaining(max[pid := demand][i], s.alloc[i]) else s.need[i]
    ensures r.need == s.need[pid := Remaining(demand, s.alloc[pid])]
    ensures Exact(r, max[pid := demand]) <==> Leq(s.alloc[pid], demand)
  {
    forall i | 0 <= i < |r.need| && i != pid ensures r.need[i] == s.need[i] {
      RemainingIff(max[i], s.alloc[i]);
      assert Leq(s.alloc[i], max[i]) by {
        assert NonNegative(s.need[i]) && s.need[i] == Sub(max[i], s.alloc[i]);
        assert forall j :: 0 <= j < |max[i]| ==> s.need[i][j] == max[i][j] - s.alloc[i][j];
      }
    }
    RemainingIff(demand, s.alloc[pid]);
  }

  /** What recomputing the needs after a declaration leaves. */
  lemma {:induction false} Recomputed(s: State, max: seq<Vec>, pid: nat, demand: Vec, r: State)
    requires Shaped(s) && MaxShaped(s, max) && pid < |max| && |demand| == |s.avail|
    requires |r.need| == |s.need| && r.alloc == s.alloc && r.avail == s.avail
    requires r.nproc == if pid < s.nproc then s.nproc else pid + 1
    requires MaxShaped(r, max[pid := demand])
    requires forall i :: 0 <= i < |r.need| ==>
               r.need[i] == if i < r.nproc then Remaining(max[pid := demand][i], s.alloc[i]) else s.need[i]
    ensures Shaped(r) && (Tables(s, max) ==> Tables(r, max[pid := demand]))
    ensures Tables(s, max) && Exact(s, max) ==>
              r == Declared(s, pid, demand) && (Exact(r, max[pid := demand]) <==> Leq(s.alloc[pid], demand))
  {
    hide Tables, Exact;
    RowsStayValid(max[pid := demand], s.alloc, r.nproc);
    if Tables(s, max) {
      NewRows(s, max, pid, demand, r);
      if Exact(s, max) {
        OneRowChanged(s, max, pid, demand, r);
      }
    }
  }

  lemma {:induction false} GiveMoves(s: State, max: seq<Vec>, p: nat, rel: Vec)
    requires Shaped(s) && MaxShaped(s, max) && Sized(s, Give(p, rel))
    ensures Act(s, Give(p, rel)) == Moved(s, p, Upto(Negate(rel), FirstBad(rel, s.alloc[p], 0)))
    ensures Tables(s, max) ==> Tables(Act(s, Give(p, rel)), max)
    ensures Exact(s, max) ==> Exact(Act(s, Give(p, rel)), max)
  {
    hide Exact;
    var bad := FirstBad(rel, s.alloc[p], 0);
    assert Negate(Upto(rel, bad)) == Upto(Negate(rel), bad);
    if Tables(s, max) {
      TablesMoved(s, max, p, Upto(Negate(rel), bad));
    }
    if Exact(s, max) {
      ExactMoved(s, max, p, Upto(Negate(rel), bad));
    }
  }

  /** What a request that passes both comparisons leads to, if it is granted. */
  lemma {:induction false} RequestMoved(s: State, max: seq<Vec>, p: nat, req: Vec)
    requires Shaped(s) && MaxShaped(s, max) && Sized(s, Ask(p, req)) && Leq(req, s.need[p]) && Leq(req, s.avail)
    ensures var r := Moved(s, p, req);
            && Shaped(r) && MaxShaped(r, max) && (Exact(s, max) ==> Exact(r, max))
            && (Tables(s, max) ==> (Tables(r, max) <==> Covered(req, s.alloc[p])))
            && (Tables(s, max) && Covered(req, s.alloc[p]) ==> Valid(r))
  {
    hide Exact;
    if Exact(s, max) {
      ExactMoved(s, max, p, req);
    }
    if Tables(s, max) {
      RequestTables(s, max, p, req);
    }
  }

  /** An empty state in which one process asks for minus one of the only resource, and gets it: it then holds minus
      one, and the pool has one more than it was given. */
  method Overdraw() returns (b: Banker)
    ensures b.initialized && b.Made() && !b.Ok() && b.available == [1] && b.allocation == [[-1]]
  {
    b := new Banker(1);
    var ok := b.Init(1, [0], 1);
    ok := b.SetMax(0, [0]);
    ghost var s, _ := NegativeRequest();
    assert b.allocation[0] == [0] && b.need[0] == [0];
    assert b.Abs() == s;
    var granted := b.Request(0, [-1]);
  }
}
