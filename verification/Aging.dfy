/** The priority scheduler with aging of kernel/proc.c, on one CPU, without affinity. */
module Aging {
  import opened Blocks
  import opened Counting

  const MAX_PRIORITY := 10
  const AGING_TICKS := 50
  const AGING_DEC := 1

  datatype Status = Runnable | Running | Away

  datatype Proc = Proc(status: Status, priority: nat, lastSched: nat, ctime: nat)

  /** The process table, the clock, and the time of the last aging. */
  datatype State = State(procs: seq<Proc>, now: nat, lastAging: nat)

  ghost predicate Valid(s: State) {
    s.lastAging <= s.now
    && forall i :: 0 <= i < |s.procs| ==> s.procs[i].priority <= MAX_PRIORITY && s.procs[i].lastSched <= s.now
  }

  // ---- aging

  function Aged(x: Proc): (r: Proc) {
    if x.status == Runnable && x.priority > 0 then
      x.(priority := if x.priority > AGING_DEC then x.priority - AGING_DEC else 0)
    else x
  }

  function AgeAll(ps: seq<Proc>): (r: seq<Proc>)
    ensures |r| == |ps| && forall i :: 0 <= i < |ps| ==> r[i] == Aged(ps[i])
  {
    if ps == [] then [] else AgeAll(ps[..|ps| - 1]) + [Aged(ps[|ps| - 1])]
  }

  predicate AgingDue(s: State) {
    s.now - s.lastAging >= AGING_TICKS
  }

  /** prio_aging_tick. */
  function AgingTick(s: State): (r: State) {
    if AgingDue(s) then State(AgeAll(s.procs), s.now, s.now) else s
  }

  // ---- selection

  /** x is picked rather than y: smaller priority, then longer ago, then created earlier. */
  predicate Ahead(x: Proc, y: Proc) {
    || x.priority < y.priority
    || (x.priority == y.priority
        && (x.lastSched < y.lastSched || (x.lastSched == y.lastSched && x.ctime < y.ctime)))
  }

  /** The process picked among the first n: a RUNNABLE one that none is ahead of, the first such in the table. */
  ghost predicate Picked(ps: seq<Proc>, n: nat, b: nat) {
    && b < n <= |ps| && ps[b].status == Runnable
    && (forall i :: 0 <= i < n && ps[i].status == Runnable ==> !Ahead(ps[i], ps[b]))
    && (forall i :: 0 <= i < b && ps[i].status == Runnable ==> Ahead(ps[b], ps[i]))
  }

  lemma {:induction false} AheadTrans(x: Proc, y: Proc, z: Proc)
    ensures Ahead(x, y) && !Ahead(z, y) ==> Ahead(x, z)
  {
  }

  /** There is one such process. */
  lemma {:induction false} PickedOnce(ps: seq<Proc>, n: nat, a: nat, b: nat)
    requires Picked(ps, n, a) && Picked(ps, n, b)
    ensures a == b
  {
  }

  class Scheduler {
    var procs: seq<Proc>
    var now: nat
    var lastAging: nat

    ghost function View(): (s: State)
      reads this
    {
      State(procs, now, lastAging)
    }

    method PrioAgingTick()
      requires Valid(View())
      modifies this
      ensures View() == AgingTick(old(View()))
    {
      if now - lastAging < AGING_TICKS {
        return;
      }
      lastAging := now;
      ghost var was := procs;
      var i := 0;
      while i < |procs|
        invariant i <= |procs| == |was| && now == old(now) && lastAging == now
        invariant forall k :: 0 <= k < |procs| ==> procs[k] == if k < i then Aged(was[k]) else was[k]
      {
        if procs[i].status == Runnable && procs[i].priority > 0 {
          if procs[i].priority > AGING_DEC {
            procs := procs[i := procs[i].(priority := procs[i].priority - AGING_DEC)];
          } else {
            procs := procs[i := procs[i].(priority := 0)];
          }
        }
        i := i + 1;
      }
      assert procs == AgeAll(was);
    }

    /** The primary pass of prio_scheduler: the process to run, or None when none is RUNNABLE. */
    method Select() returns (best: Option<nat>)
      requires Valid(View())
      ensures if best.Some? then Picked(procs, |procs|, best.value)
              else forall i :: 0 <= i < |procs| ==> procs[i].status != Runnable
    {
      best := None;
      var bestPrio, bestLast, bestCtime := MAX_PRIORITY + 1, 0, 0;
      var i: nat := 0;
      while i < |procs|
        invariant i <= |procs| && procs == old(procs)
        invariant best == None ==> bestPrio == MAX_PRIORITY + 1 && forall k :: 0 <= k < i ==>
                    procs[k].status != Runnable
        invariant best.Some? ==> Picked(procs, i, best.value) && bestPrio == procs[best.value].priority
                                 && bestLast == procs[best.value].lastSched && bestCtime == procs[best.value].ctime
      {
        var p := procs[i];
        if p.status == Runnable {
          if p.priority < bestPrio
             || (p.priority == bestPrio
               && (p.lastSched < bestLast || (p.lastSched == bestLast && p.ctime < bestCtime))) {
            if best.Some? {
              NewBest(procs, i, best.value);
            }
            bestPrio, bestLast, bestCtime := p.priority, p.lastSched, p.ctime;
            best := Some(i);
          }
        }
        i := i + 1;
      }
    }

    /** One round of prio_scheduler's loop. */
    method Round()
      requires Valid(View()) && Enabled(View(), Pick)
      modifies this
      ensures View() == Next(old(View()), Pick)
    {
      ghost var s := View();
      PrioAgingTick();
      AgingValid(s);
      var best := Select();
      ChoiceIs(s, best);
      if best.Some? {
        procs := procs[best.value := procs[best.value].(status := Running, lastSched := now)];
      }
    }
  }

  lemma {:induction false} AgingValid(s: State)
    requires Valid(s)
    ensures Valid(AgingTick(s))
  {
  }

  /** Select finds the process the specification chooses. */
  lemma {:induction false} ChoiceIs(s: State, best: Option<nat>)
    requires var ps := AgingTick(s).procs;
             if best.Some? then Picked(ps, |ps|, best.value) else forall i :: 0 <= i < |ps| ==> ps[i].status != Runnable
    ensures Choice(s) == best
  {
    var ps := AgingTick(s).procs;
    if best.Some? {
      var b :| Choice(s) == Some(b) && Picked(ps, |ps|, b);
      PickedOnce(ps, |ps|, b, best.value);
    }
  }

  /** A process ahead of the best so far is ahead of all before it. */
  lemma {:induction false} NewBest(ps: seq<Proc>, i: nat, b: nat)
    requires i < |ps| && Picked(ps, i, b) && ps[i].status == Runnable && Ahead(ps[i], ps[b])
    ensures Picked(ps, i + 1, i)
  {
    forall k | 0 <= k < i && ps[k].status == Runnable ensures Ahead(ps[i], ps[k]) && !Ahead(ps[k], ps[i]) {
      AheadTrans(ps[i], ps[b], ps[k]);
    }
  }

  // ---- runs

  datatype Event =
    | Tick                            // the clock advances
    | Pick                            // one round of the scheduler's loop
    | Stop(i: nat, back: bool)        // the running process yields, or goes away
    | Wake(i: nat)                    // a process becomes RUNNABLE

  ghost predicate Enabled(s: State, e: Event) {
    match e
    case Tick => true
    case Pick => forall i :: 0 <= i < |s.procs| ==> s.procs[i].status != Running
    case Stop(i, _) => i < |s.procs| && s.procs[i].status == Running
    case Wake(i) => i < |s.procs| && s.procs[i].status == Away
  }

  /** The process a round picks, after aging. */
  ghost function Choice(s: State): (b: Option<nat>) {
    var ps := AgingTick(s).procs;
    if b: nat :| Picked(ps, |ps|, b) then Some(b) else None
  }

  ghost function Next(s: State, e: Event): (r: State)
    requires Enabled(s, e)
  {
    match e
    case Tick => s.(now := s.now + 1)
    case Pick =>
      var t := AgingTick(s);
      (match Choice(s)
       case None => t
       case Some(b) =>
         if b < |t.procs| then t.(procs := t.procs[b := t.procs[b].(status := Running, lastSched := t.now)]) else t)
    case Stop(i, back) => s.(procs := s.procs[i := s.procs[i].(status := if back then Runnable else Away)])
    case Wake(i) => s.(procs := s.procs[i := s.procs[i].(status := Runnable)])
  }

  ghost predicate Run(s: State, es: seq<Event>, r: State)
    decreases |es|
  {
    if es == [] then r == s else Enabled(s, es[0]) && Run(Next(s, es[0]), es[1..], r)
  }

  /** The processes picked in a run, in order. */
  ghost function Picks(s: State, es: seq<Event>): (l: seq<nat>)
    decreases |es|
  {
    if es == [] || !Enabled(s, es[0]) then []
    else (if es[0].Pick? && Choice(s).Some? then [Choice(s).value] else []) + Picks(Next(s, es[0]), es[1..])
  }

  /** How often a run ages the processes. */
  ghost function Agings(s: State, es: seq<Event>): (n: nat)
    decreases |es|
  {
    if es == [] || !Enabled(s, es[0]) then 0
    else (if es[0].Pick? && AgingDue(s) then 1 else 0) + Agings(Next(s, es[0]), es[1..])
  }

  // ---- a waiting process

  /** p is RUNNABLE with this priority, and was last picked at this time. */
  ghost predicate WaitsAt(s: State, p: nat, priority: nat, last: nat) {
    p < |s.procs| && s.procs[p].status == Runnable && s.procs[p].priority == priority && s.procs[p].lastSched == last
  }

  /** A RUNNABLE process that a step does not pick keeps waiting; aging brings it forward by one. */
  lemma {:induction false} StepWaits(s: State, e: Event, p: nat, priority: nat, last: nat)
    requires Valid(s) && Enabled(s, e) && WaitsAt(s, p, priority, last) && !(e.Pick? && Choice(s) == Some(p))
    ensures WaitsAt(Next(s, e), p, if e.Pick? && AgingDue(s) && priority > 0 then priority - 1 else priority, last)
    ensures |Next(s, e).procs| == |s.procs| && Next(s, e).now >= s.now
  {
  }

  lemma {:induction false} StepValid(s: State, e: Event)
    requires Valid(s) && Enabled(s, e)
    ensures Valid(Next(s, e))
  {
  }

  /** Over any run in which it is not picked, a waiting process comes forward once per aging: after MAX_PRIORITY agings
      it has the best priority there is. */
  lemma {:induction false} AgesForward(s: State, es: seq<Event>, r: State, p: nat, priority: nat, last: nat)
    requires Valid(s) && Run(s, es, r) && WaitsAt(s, p, priority, last) && p !in Picks(s, es)
    ensures Valid(r) && |r.procs| == |s.procs| && r.now >= s.now
    ensures WaitsAt(r, p, if Agings(s, es) < priority then priority - Agings(s, es) else 0, last)
    decreases |es|
  {
    hide Enabled, Next, Choice, Valid;
    if es != [] {
      StepValid(s, es[0]);
      StepWaits(s, es[0], p, priority, last);
      var more := if es[0].Pick? && AgingDue(s) && priority > 0 then priority - 1 else priority;
      AgesForward(Next(s, es[0]), es[1..], r, p, more, last);
    }
  }

  /** How many agings of a run find p RUNNABLE. */
  ghost function AgingsOf(s: State, es: seq<Event>, p: nat): (n: nat)
    requires p < |s.procs|
    decreases |es|
  {
    if es == [] || !Enabled(s, es[0]) then 0
    else
      (if es[0].Pick? && AgingDue(s) && s.procs[p].status == Runnable then 1 else 0)
      + AgingsOf(Next(s, es[0]), es[1..], p)
  }

  /** Whatever happens, a step takes one from the priority of a process that aging finds RUNNABLE, and nothing from any
      other. */
  lemma {:induction false} StepPriority(s: State, e: Event, p: nat)
    requires Enabled(s, e) && p < |s.procs|
    ensures |Next(s, e).procs| == |s.procs|
    ensures Next(s, e).procs[p].priority ==
            s.procs[p].priority - if e.Pick? && AgingDue(s) && s.procs[p].status == Runnable && s.procs[p].priority > 0
                                  then 1 else 0
  {
  }

  /** Over any run the priority of any process falls by exactly the number of agings that found it RUNNABLE, to 0 and no
      further: who sleeps or runs does not come forward. */
  lemma {:induction false} FallsByAgings(s: State, es: seq<Event>, r: State, p: nat)
    requires Run(s, es, r) && p < |s.procs|
    ensures |r.procs| == |s.procs|
    ensures var (was, n) := (s.procs[p].priority, AgingsOf(s, es, p));
            r.procs[p].priority == if n < was then was - n else 0
    decreases |es|
  {
    hide Enabled, Next;
    if es != [] {
      StepPriority(s, es[0], p);
      FallsByAgings(Next(s, es[0]), es[1..], r, p);
    }
  }

  /** Agings are at least AGING_TICKS apart, in any run. */
  lemma {:induction false} AgingsApart(s: State, es: seq<Event>, r: State)
    requires Valid(s) && Run(s, es, r)
    ensures Agings(s, es) * AGING_TICKS <= r.lastAging - s.lastAging <= r.now - s.lastAging
    decreases |es|
  {
    hide Enabled, Next;
    if es != [] {
      StepValid(s, es[0]);
      StepClock(s, es[0]);
      AgingsApart(Next(s, es[0]), es[1..], r);
    }
  }

  lemma {:induction false} StepClock(s: State, e: Event)
    requires Valid(s) && Enabled(s, e)
    ensures Next(s, e).lastAging - s.lastAging >= if e.Pick? && AgingDue(s) then AGING_TICKS else 0
    ensures Next(s, e).lastAging == if e.Pick? && s.now >= s.lastAging + 50 then s.now else s.lastAging
    ensures Next(s, e).now == s.now + if e.Tick? then 1 else 0
  {
  }

  /** Among the first n processes one can be picked as soon as one is RUNNABLE. */
  lemma {:induction false} SomePicked(ps: seq<Proc>, n: nat, i: nat) returns (b: nat)
    requires i < n <= |ps| && ps[i].status == Runnable
    ensures Picked(ps, n, b)
    decreases n
  {
    var last := n - 1;
    if j :| 0 <= j < last && ps[j].status == Runnable {
      b := SomePicked(ps, last, j);
      if ps[last].status == Runnable && Ahead(ps[last], ps[b]) {
        NewBest(ps, last, b);
        b := last;
      }
    } else {
      b := last;
    }
  }

  /** A round picks somebody if and only if somebody is RUNNABLE: the CPU does not idle while there is work. */
  lemma {:induction false} PicksSomeone(s: State)
    ensures Choice(s).Some? <==> exists i :: 0 <= i < |s.procs| && s.procs[i].status == Runnable
  {
    var ps := AgingTick(s).procs;
    if i :| 0 <= i < |s.procs| && s.procs[i].status == Runnable {
      assert ps[i].status == Runnable;
      var b := SomePicked(ps, |ps|, i);
    }
    if Choice(s).Some? {
      assert ps[Choice(s).value].status == Runnable;
      assert s.procs[Choice(s).value].status == Runnable;
    }
  }

  /** How processes move: into RUNNING only by being picked, out of it only by stopping, back from being away only by
      a wakeup; nothing else moves anybody. */
  lemma {:induction false} StatusMoves(s: State, e: Event, p: nat)
    requires Enabled(s, e) && p < |s.procs|
    ensures var (was, now) := (s.procs[p].status, Next(s, e).procs[p].status);
            && (was == Runnable ==> now == if e == Pick && Choice(s) == Some(p) then Running else Runnable)
            && (was == Running ==>
                  now == if e == Stop(p, true) then Runnable else if e == Stop(p, false) then Away else Running)
            && (was == Away ==> now == if e == Wake(p) then Runnable else Away)
  {
  }

  ghost predicate OneRunning(s: State) {
    forall i, j :: 0 <= i < j < |s.procs| ==> s.procs[i].status != Running || s.procs[j].status != Running
  }

  /** No two processes run at a time. */
  lemma {:induction false} RunsAlone(s: State, es: seq<Event>, r: State)
    requires OneRunning(s) && Run(s, es, r)
    ensures OneRunning(r)
    decreases |es|
  {
    hide Next, Choice;
    if es != [] {
      var n := Next(s, es[0]);
      StepSize(s, es[0]);
      forall i, j | 0 <= i < j < |n.procs| ensures n.procs[i].status != Running || n.procs[j].status != Running {
        StatusMoves(s, es[0], i);
        StatusMoves(s, es[0], j);
      }
      RunsAlone(n, es[1..], r);
    }
  }

  lemma {:induction false} StepSize(s: State, e: Event)
    requires Enabled(s, e)
    ensures |Next(s, e).procs| == |s.procs|
  {
  }

  /** Who is picked, said of the numbers: least priority, then longest without a turn, then created first, then first in
      the table. */
  lemma {:induction false} PicksLeast(s: State, b: nat, i: nat)
    requires Choice(s) == Some(b)
    ensures var ps := AgingTick(s).procs;
            && b < |ps| && ps[b].status == Runnable
            && (i < |ps| && ps[i].status == Runnable ==>
                  && ps[b].priority <= ps[i].priority
                  && (ps[b].priority == ps[i].priority ==> ps[b].lastSched <= ps[i].lastSched)
                  && (ps[b].priority == ps[i].priority && ps[b].lastSched == ps[i].lastSched ==>
                        ps[b].ctime < ps[i].ctime || (ps[b].ctime == ps[i].ctime && b <= i)))
  {
  }

  /** While p waits at priority 0, a process picked later than p was is not picked again. */
  lemma {:induction false} NotAgain(s: State, p: nat, last: nat, q: nat)
    requires Valid(s) && WaitsAt(s, p, 0, last) && q < |s.procs| && s.procs[q].lastSched > last
    ensures Choice(s) != Some(q)
  {
    var ps := AgingTick(s).procs;
    assert ps[p].priority == 0 && ps[p].lastSched == last && ps[p].status == Runnable;
    assert Ahead(ps[p], ps[q]);
  }

  lemma {:induction false} StepLater(s: State, e: Event, q: nat, last: nat)
    requires Valid(s) && Enabled(s, e) && q < |s.procs| && s.now > last
    requires s.procs[q].lastSched > last || (e.Pick? && Choice(s) == Some(q))
    ensures |Next(s, e).procs| == |s.procs| && Next(s, e).procs[q].lastSched > last
  {
  }

  lemma {:induction false} ChoiceInTable(s: State)
    requires Choice(s).Some?
    ensures Choice(s).value < |s.procs|
  {
  }

  /** Those in seen have been picked since the clock passed last: they are not picked again, and nobody twice. */
  lemma {:induction false} PicksOnce(s: State, es: seq<Event>, r: State, p: nat, last: nat, seen: set<nat>)
    requires Valid(s) && Run(s, es, r) && WaitsAt(s, p, 0, last) && s.now > last && p !in Picks(s, es)
    requires forall q :: q in seen ==> q < |s.procs| && s.procs[q].lastSched > last
    ensures NoRepeats(Picks(s, es))
    ensures forall q :: q in Picks(s, es) ==> q < |s.procs| && q !in seen
    decreases |es|
  {
    hide Next, Choice, Valid;
    if es != [] {
      var e := es[0];
      StepValid(s, e);
      StepWaits(s, e, p, 0, last);
      if e.Pick? && Choice(s).Some? {
        var b := Choice(s).value;
        ChoiceInTable(s);
        if b in seen {
          NotAgain(s, p, last, b);
        }
        forall q | q in seen + {b} ensures q < |s.procs| && Next(s, e).procs[q].lastSched > last {
          StepLater(s, e, q, last);
        }
        PicksOnce(Next(s, e), es[1..], r, p, last, seen + {b});
        assert b !in Picks(Next(s, e), es[1..]);
      } else {
        forall q | q in seen ensures q < |s.procs| && Next(s, e).procs[q].lastSched > last {
          StepLater(s, e, q, last);
        }
        PicksOnce(Next(s, e), es[1..], r, p, last, seen);
      }
    }
  }

  /** Once a waiting process has priority 0 and the clock is past its last turn, every other process is picked at most
      once before it: it gets its turn within as many picks as there are processes. */
  lemma {:induction false} BoundedWait(s: State, es: seq<Event>, r: State, p: nat, last: nat)
    requires Valid(s) && Run(s, es, r) && WaitsAt(s, p, 0, last) && s.now > last
    ensures p !in Picks(s, es) ==> NoRepeats(Picks(s, es)) && |Picks(s, es)| < |s.procs|
  {
    hide Picks, Run, Valid;
    if p !in Picks(s, es) {
      PicksOnce(s, es, r, p, last, {});
      assert forall k :: 0 <= k < |Picks(s, es)| ==> Picks(s, es)[k] in Picks(s, es);
      RangeBoundWithout(Picks(s, es), |s.procs|, p);
    }
  }
}
