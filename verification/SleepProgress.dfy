/** What the protocol of sleep, wakeup and kill never does: wake somebody without cause, or come to a standstill. */
module SleepProgress {
  import opened Blocks
  import opened Counting
  import opened SleepWakeup

  // ---- nobody wakes without cause

  /** The step can end the sleep of p: a wakeup on its channel, or a kill of p. */
  ghost predicate CanWake(s: State, t: Step, p: Pid) {
    && t.p < |s.ph| == |s.kill| && p < |s.ph|
    && ((t.Visit? && s.ph[t.p].Scanning? && Sleeping(s.ph[p]) && s.ph[t.p].c == s.ph[p].c)
        || (t.KillEnd? && !s.kill[t.p].Idle? && s.kill[t.p].q == p))
  }

  /** Some step of the run can. */
  ghost predicate WokenIn(s: State, ts: seq<Step>, p: Pid)
    decreases |ts|
  {
    ts != [] && Enabled(s, ts[0]) && (CanWake(s, ts[0], p) || WokenIn(Next(s, ts[0]), ts[1..], p))
  }

  lemma {:induction false} StepAsleep(s: State, t: Step, p: Pid)
    requires Enabled(s, t) && p < |s.ph| && Sleeping(s.ph[p]) && !CanWake(s, t, p)
    ensures p < |Next(s, t).ph| && Sleeping(Next(s, t).ph[p]) && Next(s, t).ph[p].c == s.ph[p].c
  {
    hide CondFree, BucketFree, Remove;
  }

  /** In every run a process stays SLEEPING on its channel until a wakeup on that very channel visits, or somebody
      kills it: other channels in the same bucket do not disturb it. */
  lemma {:induction false} SleepsUntilWoken(s: State, ts: seq<Step>, r: State, p: Pid)
    requires Run(s, ts, r) && p < |s.ph| && Sleeping(s.ph[p])
    ensures WokenIn(s, ts, p) || (p < |r.ph| && Sleeping(r.ph[p]) && r.ph[p].c == s.ph[p].c)
    decreases |ts|
  {
    hide Enabled, Next, CanWake, Sleeping;
    if ts != [] && !CanWake(s, ts[0], p) {
      StepAsleep(s, ts[0], p);
      SleepsUntilWoken(Next(s, ts[0]), ts[1..], r, p);
    }
  }

  /** A process is made RUNNABLE only when it has been switched out and the scheduler has released its lock: no step
      readies it while it is still on its way into sched, so that it never runs in two places. */
  lemma {:induction false} ReadiedOnlyWhenOut(s: State, t: Step, p: Pid)
    requires Enabled(s, t) && p < |s.ph| && p < |Next(s, t).ph| && Sleeping(s.ph[p]) && !Sleeping(Next(s, t).ph[p])
    ensures s.ph[p].Asleep? && CanWake(s, t, p) && Next(s, t).ph[p] == Ready(s.ph[p].c)
  {
    hide CondFree, BucketFree, Remove;
  }

  /** From being made RUNNABLE a sleeper comes back to holding its condition lock, and from there to rest. */
  lemma {:induction false} ReturnsLocked(s: State, p: Pid)
    requires Sized(s) && p < |s.ph| && s.ph[p].Ready?
    ensures Enabled(s, Resume(p))
    ensures var a := Next(s, Resume(p));
            && a == s.(ph := s.ph[p := Returning(s.ph[p].c)]) && (Enabled(a, Relock(p)) <==> CondFree(a, s.ph[p].c))
            && (Enabled(a, Relock(p)) ==>
                  var b := Next(a, Relock(p));
                  && b == s.(ph := s.ph[p := Held(s.ph[p].c)]) && Enabled(b, ReleaseCond(p))
                  && Next(b, ReleaseCond(p)) == s.(ph := s.ph[p := Away]))
  {
    hide CondFree;
    var a := Next(s, Resume(p));
    if Enabled(a, Relock(p)) {
      var b := Next(a, Relock(p));
      assert b.ph == s.ph[p := Held(s.ph[p].c)];
      assert b.ph[p := Away] == s.ph[p := Away];
    }
  }

  // ---- every step leads on

  /** How far a process is from rest, or from being asleep, by its own steps. */
  ghost function Distance(s: State, p: Pid): (n: nat)
    requires Sized(s) && p < |s.ph|
  {
    (match s.ph[p]
     case Away => 0
     case Held(_) => 1
     case Returning(_) => 2
     case Ready(_) => 3
     case Asleep(_) => 4
     case Leaving(_) => 5
     case Queued(_) => 6
     case Dropped(_) => 7
     case Locked(_) => 8
     case Grabbed(_) => 9
     case Waking(c) => |s.lists[Bucket(s, c)]| + 3
     case Scanning(_, todo) => |todo| + 2)
    + match s.kill[p] case Idle => 0 case Holding(_, _) => 1 case Looked(_, _) => 2
  }

  /** Steps that begin something new. */
  predicate Begins(t: Step) {
    t.AcquireCond? || t.KillLook?
  }

  /** The steps by which a process decides what to do next; all others carry on with it. */
  predicate Decides(t: Step) {
    Begins(t) || t.Consume? || t.Change? || t.GrabBucket?
  }

  /** No step that carries on is idle: it brings its process nearer to its end. With NoDeadlock, whatever has begun
      comes to its end if the processes that can go on do. */
  lemma {:induction false} StepAdvances(s: State, t: Step)
    requires Sized(s) && Enabled(s, t) && !Decides(t)
    ensures Sized(Next(s, t)) && t.p < |Next(s, t).ph| && Distance(Next(s, t), t.p) < Distance(s, t.p)
  {
    hide CondFree, BucketFree, Remove;
    StepSized(s, t);
  }

  // ---- no standstill

  /** p has something to finish: it is neither at rest nor asleep. */
  predicate Busy(s: State, p: Pid)
    requires p < |s.ph| == |s.kill|
  {
    !(s.ph[p].Away? && s.kill[p].Idle?) && !s.ph[p].Asleep?
  }

  ghost predicate Goes(s: State, t: Step) {
    Enabled(s, t) && !Begins(t)
  }

  ghost predicate NobodyLocked(s: State) {
    forall q :: 0 <= q < |s.ph| ==> !HoldsSelf(s.ph[q])
  }

  /** Who holds its own process lock goes on at once. */
  lemma {:induction false} LockedGoes(s: State, q: Pid) returns (t: Step)
    requires Sized(s) && q < |s.ph| && HoldsSelf(s.ph[q])
    ensures Goes(s, t)
  {
    t := match s.ph[q] case Locked(_) => DropCond(q) case Dropped(_) => Enqueue(q) case Queued(_) => DropBucket(q)
                       case _ => Switch(q);
  }

  /** With no process lock held, who holds a bucket goes on at once. */
  lemma {:induction false} BucketGoes(s: State, b: nat) returns (t: Step)
    requires Inv(s) && NobodyLocked(s) && !BucketFree(s, b)
    ensures Goes(s, t)
  {
    hide Exclusive, LinksExact, Tickets, NoStale, Owed, KillerApart;
    if q: nat :| q < |s.ph| && HoldsBucket(s.ph[q]) {
      t := HolderGoes(s, q);
    } else {
      var q: nat :| q < |s.kill| && s.kill[q].Holding?;
      assert KillerOk(s, q);
      t := KillEnd(q);
    }
  }

  lemma {:induction false} HolderGoes(s: State, q: Pid) returns (t: Step)
    requires Inv(s) && NobodyLocked(s) && q < |s.ph| && HoldsBucket(s.ph[q])
    ensures Goes(s, t)
  {
    hide Exclusive, LinksExact, Tickets, NoStale, Owed, Killers;
    if s.ph[q].Grabbed? {
      t := LockSelf(q);
    } else if s.ph[q].todo == [] {
      t := EndScan(q);
    } else {
      var x := s.ph[q].todo[0];
      assert ScansList(s, q) && x in s.ph[q].todo;
      assert Listed(s, Bucket(s, s.ph[q].c), x);
      t := Visit(q);
    }
  }

  /** With no process lock held, who holds a condition lock goes on, or whoever has the bucket it waits for does. */
  lemma {:induction false} CondGoes(s: State, q: Pid) returns (t: Step)
    requires Inv(s) && NobodyLocked(s) && q < |s.ph| && HoldsCond(s.ph[q])
    ensures Goes(s, t)
  {
    hide Inv, BucketFree;
    assert Sized(s) by {
      InvSized(s);
    }
    if s.ph[q].Held? {
      t := ReleaseCond(q);
    } else if s.ph[q].Waking? {
      if BucketFree(s, Bucket(s, s.ph[q].c)) {
        t := StartScan(q);
      } else {
        t := BucketGoes(s, Bucket(s, s.ph[q].c));
      }
    } else {
      t := HolderGoes(s, q);
    }
  }

  lemma {:induction false} InvSized(s: State)
    requires Inv(s)
    ensures Sized(s) && Killers(s)
  {
  }

  /** A killer goes on, or whoever has the bucket it waits for does. */
  lemma {:induction false} KillerGoes(s: State, p: Pid) returns (t: Step)
    requires Inv(s) && NobodyLocked(s) && p < |s.ph| == |s.kill| && !s.kill[p].Idle?
    ensures Goes(s, t)
  {
    hide Inv, BucketFree, KillerApart;
    InvSized(s);
    assert KillerOk(s, p);
    if s.kill[p].Holding? || s.kill[p].saw == None {
      t := KillEnd(p);
    } else if BucketFree(s, s.kill[p].saw.value) {
      t := KillGrab(p);
    } else {
      t := BucketGoes(s, s.kill[p].saw.value);
    }
  }

  /** The lock order is sound: while anybody has something to finish, some process can take a step towards finishing
      what has begun. */
  lemma {:induction false} NoDeadlock(s: State, ts: seq<Step>, r: State, p: Pid) returns (t: Step)
    requires Initial(s) && Run(s, ts, r) && AllClean(s, ts) && p < |r.ph| == |r.kill| && Busy(r, p)
    ensures Goes(r, t)
  {
    hide Inv, Initial, Run, AllClean, CondFree, Goes;
    InitialInv(s);
    RunInv(s, ts, r);
    InvSized(r);
    if q: nat :| q < |r.ph| && HoldsSelf(r.ph[q]) {
      t := LockedGoes(r, q);
    } else if r.ph[p].Away? {
      t := KillerGoes(r, p);
    } else if r.ph[p].Ready? {
      t := Resume(p);
      assert Goes(r, t) by {
        ReadyGoes(r, p);
      }
    } else if HoldsCond(r.ph[p]) {
      t := CondGoes(r, p);
    } else {
      t := ReturnGoes(r, p);
    }
  }

  lemma {:induction false} ReadyGoes(s: State, p: Pid)
    requires Sized(s) && p < |s.ph| && s.ph[p].Ready?
    ensures Goes(s, Resume(p))
  {
  }

  lemma {:induction false} ReturnGoes(s: State, p: Pid) returns (t: Step)
    requires Inv(s) && NobodyLocked(s) && p < |s.ph| && s.ph[p].Returning?
    ensures Goes(s, t)
  {
    hide Inv;
    InvSized(s);
    if q: nat :| q < |s.ph| && HoldsCond(s.ph[q]) && s.ph[q].c == s.ph[p].c {
      t := CondGoes(s, q);
    } else {
      t := Relock(p);
    }
  }
}
