/** The sleep and wakeup protocol of kernel/proc.c as a state machine over its lock operations.

    Each channel c has a condition, guarded by a condition lock. A process that finds the condition false under
    that lock may sleep on c; a process that makes it true holds the lock and calls wakeup(c) before releasing it.
    Several channels may share a wait bucket. Locks are held exactly in certain phases, so that acquiring a lock
    is possible when no process is in a phase that holds it.

    A process that holds nothing may also call kkill, which looks at its victim twice: first for the bucket the victim
    is linked to, then, with that bucket locked, to make it RUNNABLE.
 */
module SleepWakeup {
  import opened Blocks
  import opened Counting

  type Pid = nat
  type Chan = nat

  datatype Phase =
    | Away                          // holds nothing
    | Held(c: Chan)                 // holds the condition lock of c
    | Grabbed(c: Chan)              // sleep: has the bucket lock too
    | Locked(c: Chan)               // sleep: has its own process lock too
    | Dropped(c: Chan)              // sleep: has released the condition lock
    | Queued(c: Chan)               // sleep: on the bucket list and SLEEPING
    | Leaving(c: Chan)              // sleep: has released the bucket lock, on the way into sched()
    | Asleep(c: Chan)               // switched out, process lock released by the scheduler
    | Ready(c: Chan)                // made RUNNABLE by wakeup
    | Returning(c: Chan)            // running again, about to reacquire the condition lock
    | Waking(c: Chan)               // has changed the condition and called wakeup(c)
    | Scanning(c: Chan, todo: seq<Pid>)  // wakeup: has the bucket lock, todo is the rest of the list

  /** Where a process is in kkill: it has looked at q and read saw as q's bucket, and then locked that bucket. */
  datatype Killer = Idle | Looked(q: Pid, saw: Option<nat>) | Holding(q: Pid, b: nat)

  /** ph are the phases; lists the bucket lists; link the bucket each process is linked to; kill the progress of kkill;
      cond the conditions. Each decision to sleep gets a ticket; woken are the tickets whose sleep a wakeup or a kill
      has ended; must are, per waker, the sleepers it found on its channel. */
  datatype State = State(ph: seq<Phase>, lists: seq<seq<Pid>>, link: seq<Option<nat>>, kill: seq<Killer>,
                         cond: map<Chan, bool>, ticket: seq<nat>, nextTicket: nat, woken: set<nat>, must: seq<set<nat>>)

  datatype Step =
    | AcquireCond(p: Pid, c: Chan)
    | ReleaseCond(p: Pid)
    | Consume(p: Pid)               // make the condition false
    | GrabBucket(p: Pid)            // sleep, the condition having been found false
    | LockSelf(p: Pid)
    | DropCond(p: Pid)
    | Enqueue(p: Pid)
    | DropBucket(p: Pid)
    | Switch(p: Pid)
    | Resume(p: Pid)
    | Relock(p: Pid)
    | Change(p: Pid)                // make the condition true and call wakeup
    | StartScan(p: Pid)
    | Visit(p: Pid)
    | EndScan(p: Pid)
    | KillLook(p: Pid, q: Pid)      // kkill: reads wbucket under the victim's lock
    | KillGrab(p: Pid)              // kkill: locks the bucket it read
    | KillEnd(p: Pid)               // kkill: with the victim's lock again

  function Bucket(s: State, c: Chan): (b: nat)
    requires |s.lists| > 0
  {
    c % |s.lists|
  }

  // ---- which locks a phase holds

  predicate HoldsCond(ph: Phase) {
    ph.Held? || ph.Grabbed? || ph.Locked? || ph.Waking? || ph.Scanning?
  }

  predicate HoldsBucket(ph: Phase) {
    ph.Grabbed? || ph.Locked? || ph.Dropped? || ph.Queued? || ph.Scanning?
  }

  predicate HoldsSelf(ph: Phase) {
    ph.Locked? || ph.Dropped? || ph.Queued? || ph.Leaving?
  }

  /** On the bucket list, in state SLEEPING. */
  predicate Sleeping(ph: Phase) {
    ph.Queued? || ph.Leaving? || ph.Asleep?
  }

  /** Has found the condition false and is going to sleep or asleep, without the condition lock. */
  predicate Committed(ph: Phase) {
    ph.Dropped? || Sleeping(ph)
  }

  /** In the middle of a wakeup. */
  predicate AtWork(ph: Phase) {
    ph.Waking? || ph.Scanning?
  }

  predicate CondFree(s: State, c: Chan) {
    forall q :: 0 <= q < |s.ph| ==> !(HoldsCond(s.ph[q]) && s.ph[q].c == c)
  }

  predicate BucketFree(s: State, b: nat)
    requires |s.lists| > 0
  {
    && (forall q :: 0 <= q < |s.ph| ==> !(HoldsBucket(s.ph[q]) && Bucket(s, s.ph[q].c) == b))
    && (forall q :: 0 <= q < |s.kill| ==> !(s.kill[q].Holding? && s.kill[q].b == b))
  }

  // ---- steps

  ghost predicate Enabled(s: State, t: Step) {
    && t.p < |s.ph| == |s.ticket| == |s.must| == |s.link| == |s.kill| && |s.lists| > 0
    && var (ph, kill) := (s.ph[t.p], s.kill[t.p]);
    match t
    case AcquireCond(p, c) => ph.Away? && kill.Idle? && c in s.cond && CondFree(s, c)
    case ReleaseCond(p) => ph.Held?
    case Consume(p) => ph.Held?
    case GrabBucket(p) => ph.Held? && ph.c in s.cond && !s.cond[ph.c] && BucketFree(s, Bucket(s, ph.c))
    case LockSelf(p) => ph.Grabbed?
    case DropCond(p) => ph.Locked?
    case Enqueue(p) => ph.Dropped?
    case DropBucket(p) => ph.Queued?
    case Switch(p) => ph.Leaving?
    case Resume(p) => ph.Ready?
    case Relock(p) => ph.Returning? && CondFree(s, ph.c)
    case Change(p) => ph.Held?
    case StartScan(p) => ph.Waking? && BucketFree(s, Bucket(s, ph.c))
    case Visit(p) => ph.Scanning? && ph.todo != [] && ph.todo[0] < |s.ph| && !HoldsSelf(s.ph[ph.todo[0]])
    case EndScan(p) => ph.Scanning? && ph.todo == []
    case KillLook(p, q) => ph.Away? && kill.Idle? && q < |s.ph| && !HoldsSelf(s.ph[q])
    case KillGrab(p) => ph.Away? && kill.Looked? && kill.saw.Some? && BucketFree(s, kill.saw.value)
    case KillEnd(p) =>
      ph.Away? && (kill.Holding? || (kill.Looked? && kill.saw == None)) && kill.q < |s.ph| && !HoldsSelf(s.ph[kill.q])
  }

  function Remove(list: seq<Pid>, p: Pid): (r: seq<Pid>) {
    if list == [] then [] else if list[0] == p then list[1..] else [list[0]] + Remove(list[1..], p)
  }

  /** The second half of kkill: q is made RUNNABLE if it is SLEEPING, and taken off the bucket that kkill saw q linked
      to, if q is linked there now. */
  function Killed(s: State, q: Pid, saw: Option<nat>): (r: State)
    requires q < |s.ph| == |s.ticket| == |s.link|
  {
    if !Sleeping(s.ph[q]) then s else
      var after := s.(ph := s.ph[q := Ready(s.ph[q].c)], woken := s.woken + {s.ticket[q]});
      if saw.Some? && s.link[q] == saw && saw.value < |s.lists| then
        after.(lists := s.lists[saw.value := Remove(s.lists[saw.value], q)], link := s.link[q := None])
      else after
  }

  ghost function Next(s: State, t: Step): (r: State)
    requires Enabled(s, t)
  {
    var ph := s.ph[t.p];
    match t
    case AcquireCond(p, c) => s.(ph := s.ph[p := Held(c)])
    case ReleaseCond(p) => s.(ph := s.ph[p := Away])
    case Consume(p) => s.(cond := s.cond[ph.c := false])
    case GrabBucket(p) =>
      s.(ph := s.ph[p := Grabbed(ph.c)], ticket := s.ticket[p := s.nextTicket], nextTicket := s.nextTicket + 1)
    case LockSelf(p) => s.(ph := s.ph[p := Locked(ph.c)])
    case DropCond(p) => s.(ph := s.ph[p := Dropped(ph.c)])
    case Enqueue(p) =>
      var b := Bucket(s, ph.c);
      s.(ph := s.ph[p := Queued(ph.c)], lists := s.lists[b := [p] + s.lists[b]], link := s.link[p := Some(b)])
    case DropBucket(p) => s.(ph := s.ph[p := Leaving(ph.c)])
    case Switch(p) => s.(ph := s.ph[p := Asleep(ph.c)])
    case Resume(p) => s.(ph := s.ph[p := Returning(ph.c)])
    case Relock(p) => s.(ph := s.ph[p := Held(ph.c)])
    case Change(p) =>
      var sleepers := set q | 0 <= q < |s.ph| && Committed(s.ph[q]) && s.ph[q].c == ph.c :: s.ticket[q];
      s.(ph := s.ph[p := Waking(ph.c)], cond := s.cond[ph.c := true], must := s.must[p := sleepers])
    case StartScan(p) => s.(ph := s.ph[p := Scanning(ph.c, s.lists[Bucket(s, ph.c)])])
    case Visit(p) =>
      var q := ph.todo[0];
      var after := s.(ph := s.ph[p := Scanning(ph.c, ph.todo[1..])]);
      var b := Bucket(s, ph.c);
      if q != p && Sleeping(s.ph[q]) && s.ph[q].c == ph.c then
        after.(ph := after.ph[q := Ready(ph.c)], lists := s.lists[b := Remove(s.lists[b], q)],
               link := s.link[q := None], woken := s.woken + {s.ticket[q]})
      else after
    case EndScan(p) => s.(ph := s.ph[p := Held(ph.c)])
    case KillLook(p, q) => s.(kill := s.kill[p := Looked(q, s.link[q])])
    case KillGrab(p) => s.(kill := s.kill[p := Holding(s.kill[p].q, s.kill[p].saw.value)])
    case KillEnd(p) =>
      Killed(s.(kill := s.kill[p := Idle]), s.kill[p].q, if s.kill[p].Holding? then Some(s.kill[p].b) else None)
  }

  // ---- the invariant

  ghost predicate Sized(s: State) {
    && |s.ph| == |s.ticket| == |s.must| == |s.link| == |s.kill| && |s.lists| > 0
    && (forall p :: 0 <= p < |s.ph| && !s.ph[p].Away? ==> s.ph[p].c in s.cond)
  }

  /** A process in kkill holds no condition and has a victim; the bucket it locks exists. */
  ghost predicate KillerOk(s: State, p: Pid)
    requires p < |s.ph| == |s.kill|
  {
    var k := s.kill[p];
    && (!k.Idle? ==> s.ph[p].Away? && k.q < |s.ph|)
    && (k.Looked? && k.saw.Some? ==> k.saw.value < |s.lists|)
    && (k.Holding? ==> k.b < |s.lists|)
  }

  /** A killer with a bucket lock shares it with nobody. */
  ghost predicate KillerApart(s: State, p: Pid, q: Pid)
    requires p < |s.ph| == |s.kill| && q < |s.ph| && |s.lists| > 0
  {
    s.kill[p].Holding? ==>
      && (HoldsBucket(s.ph[q]) ==> Bucket(s, s.ph[q].c) != s.kill[p].b)
      && (q != p && s.kill[q].Holding? ==> s.kill[q].b != s.kill[p].b)
  }

  ghost predicate Killers(s: State) {
    && |s.ph| == |s.kill| && |s.lists| > 0 && (forall p: nat :: p < |s.ph| ==> KillerOk(s, p))
    && forall p: nat, q: nat :: p < |s.ph| && q < |s.ph| ==> KillerApart(s, p, q)
  }

  /** wbucket is the bucket of the channel exactly while the process is SLEEPING. */
  predicate LinkOf(s: State, p: Pid)
    requires p < |s.ph| == |s.link| && |s.lists| > 0
  {
    s.link[p] == if Sleeping(s.ph[p]) then Some(Bucket(s, s.ph[p].c)) else None
  }

  ghost predicate LinksExact(s: State) {
    |s.ph| == |s.link| && |s.lists| > 0 && forall p: nat :: p < |s.ph| ==> LinkOf(s, p)
  }

  /** Two processes in these phases, with n buckets, hold no lock in common. */
  predicate Apart(x: Phase, y: Phase, n: nat)
    requires n > 0
  {
    && (HoldsCond(x) && HoldsCond(y) ==> x.c != y.c)
    && (HoldsBucket(x) && HoldsBucket(y) ==> x.c % n != y.c % n)
  }

  /** No lock has two holders. */
  ghost predicate Exclusive(s: State) {
    |s.lists| > 0 && forall p, q :: 0 <= p < |s.ph| && 0 <= q < |s.ph| && p != q ==> Apart(s.ph[p], s.ph[q], |s.lists|)
  }

  /** Process p is on list b if and only if it is SLEEPING on a channel of that bucket. */
  ghost predicate Listed(s: State, b: nat, p: Pid)
    requires |s.lists| > 0 && b < |s.lists|
  {
    p in s.lists[b] <==> p < |s.ph| && Sleeping(s.ph[p]) && Bucket(s, s.ph[p].c) == b
  }

  /** A process is on the list of its channel's bucket exactly while it is SLEEPING, and on no other list. */
  ghost predicate ListsExact(s: State) {
    && |s.lists| > 0
    && (forall b :: 0 <= b < |s.lists| ==> NoRepeats(s.lists[b]))
    && (forall b: nat, p: nat :: b < |s.lists| ==> Listed(s, b, p))
  }

  /** Tickets name sleeps; a ticket whose sleep was ended is not asleep any more. */
  ghost predicate Tickets(s: State) {
    && |s.ticket| == |s.ph|
    && (forall t :: t in s.woken ==> t < s.nextTicket)
    && (forall p :: 0 <= p < |s.ph| && Going(s.ph[p]) ==> s.ticket[p] < s.nextTicket && s.ticket[p] !in s.woken)
    && (forall p, q :: 0 <= p < |s.ph| && 0 <= q < |s.ph| && p != q && Going(s.ph[p]) && Going(s.ph[q]) ==>
          s.ticket[p] != s.ticket[q])
  }

  predicate Going(ph: Phase) {
    ph.Grabbed? || ph.Locked? || Committed(ph)
  }

  /** Process p is the sleeper with ticket t on c. */
  ghost predicate Waits(s: State, t: nat, p: nat, c: Chan) {
    p < |s.ph| == |s.ticket| && s.ticket[p] == t && Committed(s.ph[p]) && s.ph[p].c == c
  }

  /** What waker w still owes ticket t: it has been woken, or is still to come. */
  ghost predicate Due(s: State, w: Pid, t: nat)
    requires w < |s.ph|
  {
    var ph := s.ph[w];
    && (ph.Waking? ==> t in s.woken || exists p :: Waits(s, t, p, ph.c))
    && (ph.Scanning? ==> t in s.woken || exists p :: Waits(s, t, p, ph.c) && p in ph.todo)
  }

  ghost predicate Owed(s: State, w: Pid)
    requires w < |s.ph| == |s.ticket| == |s.must|
  {
    var ph := s.ph[w];
    AtWork(ph) ==>
      && (forall t :: t in s.must[w] ==> Due(s, w, t))
      && (forall p :: 0 <= p < |s.ph| && Committed(s.ph[p]) && s.ph[p].c == ph.c ==> s.ticket[p] in s.must[w])
  }

  ghost predicate ScansList(s: State, w: Pid)
    requires w < |s.ph| && |s.lists| > 0
  {
    var ph := s.ph[w];
    ph.Scanning? ==> NoRepeats(ph.todo) && forall q :: q in ph.todo ==> q in s.lists[Bucket(s, ph.c)]
  }

  /** Nobody sleeps on a true condition unless its waker is still at work. */
  ghost predicate NoStale(s: State) {
    forall p :: 0 <= p < |s.ph| && Going(s.ph[p]) && s.ph[p].c in s.cond && s.cond[s.ph[p].c] ==>
        BeingWoken(s, s.ph[p].c)
  }

  ghost predicate BeingWoken(s: State, c: Chan) {
    exists w :: 0 <= w < |s.ph| && AtWork(s.ph[w]) && s.ph[w].c == c
  }

  ghost predicate Inv(s: State) {
    && Sized(s) && Exclusive(s) && Killers(s) && ListsExact(s) && LinksExact(s) && Tickets(s) && NoStale(s)
    && forall w: nat :: w < |s.ph| ==> Owed(s, w) && ScansList(s, w)
  }

  // ---- each step keeps it

  /** A kill that ends the sleep of a victim still linked to the bucket that was read at the first look. */
  predicate CleanKill(s: State, t: Step)
    requires t.p < |s.ph| == |s.kill| == |s.link|
  {
    var k := s.kill[t.p];
    t.KillEnd? && !k.Idle? && k.q < |s.ph| && Sleeping(s.ph[k.q]) ==> k.Holding? && s.link[k.q] == Some(k.b)
  }

  lemma {:induction false} StepSized(s: State, t: Step)
    requires Sized(s) && Enabled(s, t)
    ensures Sized(Next(s, t))
  {
  }

  /** The process whose sleep the step ends: for a Visit a sleeper on the waker's own channel. */
  predicate Wakes(s: State, t: Step, q: Pid)
    requires t.p < |s.ph| == |s.kill|
  {
    && q < |s.ph| && q != t.p && Sleeping(s.ph[q])
    && ((t.Visit? && s.ph[t.p].Scanning? && s.ph[t.p].todo != [] && q == s.ph[t.p].todo[0] && s.ph[q].c == s.ph[t.p].c)
        || (t.KillEnd? && !s.kill[t.p].Idle? && q == s.kill[t.p].q))
  }

  /** A step changes the phase of its own process, and that of the process whose sleep it ends. */
  lemma {:induction false} StepPhase(s: State, t: Step, p: Pid)
    requires Enabled(s, t) && p < |s.ph|
    ensures |Next(s, t).ph| == |s.ph| && |Next(s, t).lists| == |s.lists|
    ensures p != t.p && !Wakes(s, t, p) ==> Next(s, t).ph[p] == s.ph[p]
    ensures Wakes(s, t, p) ==> Next(s, t).ph[p] == Ready(s.ph[p].c)
  {
  }

  lemma {:induction false} StepApart(s: State, t: Step, p: Pid, q: Pid)
    requires Exclusive(s) && Enabled(s, t) && p < |s.ph| && q < |s.ph| && p != q
    ensures |Next(s, t).ph| == |s.ph| && Apart(Next(s, t).ph[p], Next(s, t).ph[q], |s.lists|)
  {
    StepPhase(s, t, p);
    StepPhase(s, t, q);
    assert Apart(s.ph[p], s.ph[q], |s.lists|) && Apart(s.ph[q], s.ph[p], |s.lists|);
  }

  lemma {:induction false} StepExclusive(s: State, t: Step)
    requires Exclusive(s) && Enabled(s, t)
    ensures Exclusive(Next(s, t))
  {
    StepPhase(s, t, t.p);
    var r := Next(s, t);
    forall p, q | 0 <= p < |s.ph| && 0 <= q < |s.ph| && p != q ensures Apart(r.ph[p], r.ph[q], |s.lists|) {
      StepApart(s, t, p, q);
    }
  }

  // ---- killers

  /** A step changes how far its own process is in kkill. */
  lemma {:induction false} StepKiller(s: State, t: Step, p: Pid)
    requires Enabled(s, t) && p < |s.ph|
    ensures var r := Next(s, t);
            && |r.kill| == |s.kill| && |r.ph| == |s.ph|
            && (!(t.p == p && (t.KillLook? || t.KillGrab? || t.KillEnd?)) ==> r.kill[p] == s.kill[p])
  {
  }

  lemma {:induction false} StepKillerOk(s: State, t: Step, p: Pid)
    requires Sized(s) && Killers(s) && LinksExact(s) && Enabled(s, t) && p < |s.ph|
    ensures |Next(s, t).ph| == |s.ph| == |Next(s, t).kill| && KillerOk(Next(s, t), p)
  {
    StepPhase(s, t, p);
    StepKiller(s, t, p);
    assert KillerOk(s, p);
    if t.KillLook? && t.p == p {
      assert LinkOf(s, t.q);
    }
  }

  lemma {:induction false} StepKillerApart(s: State, t: Step, p: Pid, q: Pid)
    requires Sized(s) && Killers(s) && Enabled(s, t) && p < |s.ph| && q < |s.ph|
    ensures |Next(s, t).ph| == |s.ph| == |Next(s, t).kill| && |Next(s, t).lists| > 0 && KillerApart(Next(s, t), p, q)
  {
    StepPhase(s, t, q);
    StepKiller(s, t, p);
    StepKiller(s, t, q);
    assert KillerApart(s, p, q) && KillerApart(s, q, p) && KillerOk(s, q) && KillerOk(s, p);
  }

  lemma {:induction false} StepKillers(s: State, t: Step)
    requires Sized(s) && Killers(s) && LinksExact(s) && Enabled(s, t)
    ensures Killers(Next(s, t))
  {
    hide Killers, KillerOk, KillerApart, LinksExact, Enabled, Next;
    StepOwn(s, t);
    var r := Next(s, t);
    forall p: nat | p < |r.ph| ensures KillerOk(r, p) {
      StepKillerOk(s, t, p);
    }
    forall p: nat, q: nat | p < |r.ph| && q < |r.ph| ensures KillerApart(r, p, q) {
      StepKillerApart(s, t, p, q);
    }
    KillersFrom(r);
  }

  lemma {:induction false} KillersFrom(s: State)
    requires |s.ph| == |s.kill| && |s.lists| > 0 && (forall p: nat :: p < |s.ph| ==> KillerOk(s, p))
    requires forall p: nat, q: nat :: p < |s.ph| && q < |s.ph| ==> KillerApart(s, p, q)
    ensures Killers(s)
  {
  }

  // ---- lists and links

  lemma {:induction false} RemoveShape(list: seq<Pid>, p: Pid)
    requires NoRepeats(list)
    ensures NoRepeats(Remove(list, p)) && forall x :: x in Remove(list, p) <==> x in list && x != p
  {
    if list != [] {
      assert list == [list[0]] + list[1..];
      RemoveShape(list[1..], p);
      assert list[0] !in list[1..];
    }
  }

  lemma {:induction false} StepList(s: State, t: Step, b: nat)
    requires Sized(s) && ListsExact(s) && LinksExact(s) && Enabled(s, t) && CleanKill(s, t) && b < |s.lists|
    ensures var r := Next(s, t);
            |r.lists| == |s.lists| && NoRepeats(r.lists[b])
            && forall p: nat :: p in r.lists[b] <==>
                 (p in s.lists[b] && !Wakes(s, t, p)) || (t.Enqueue? && p == t.p && Bucket(s, s.ph[p].c) == b)
  {
    assert Listed(s, b, t.p);
    if t.Visit? {
      RemoveShape(s.lists[b], s.ph[t.p].todo[0]);
      assert Listed(s, b, s.ph[t.p].todo[0]);
    } else if t.KillEnd? {
      var q := s.kill[t.p].q;
      RemoveShape(s.lists[b], q);
      assert Listed(s, b, q) && LinkOf(s, q);
    }
  }

  lemma {:induction false} StepListed(s: State, t: Step, b: nat, p: Pid)
    requires Sized(s) && ListsExact(s) && LinksExact(s) && Enabled(s, t) && CleanKill(s, t) && b < |s.lists|
    ensures var r := Next(s, t);
            |r.lists| == |s.lists|
            && Listed(r, b, p)
  {
    StepList(s, t, b);
    assert Listed(s, b, p);
    if p < |s.ph| {
      StepPhase(s, t, p);
    } else {
      StepPhase(s, t, t.p);
    }
  }

  lemma {:induction false} StepLists(s: State, t: Step)
    requires Sized(s) && ListsExact(s) && LinksExact(s) && Enabled(s, t) && CleanKill(s, t)
    ensures ListsExact(Next(s, t))
  {
    StepPhase(s, t, t.p);
    var r := Next(s, t);
    forall b: nat | b < |s.lists| ensures NoRepeats(r.lists[b]) {
      StepList(s, t, b);
    }
    forall b: nat, p: nat | b < |s.lists| ensures Listed(r, b, p) {
      StepListed(s, t, b, p);
    }
  }

  lemma {:induction false} StepLink(s: State, t: Step, p: Pid)
    requires Sized(s) && LinksExact(s) && Enabled(s, t) && CleanKill(s, t) && p < |s.ph|
    ensures var r := Next(s, t);
            |r.ph| == |s.ph| == |r.link| && |r.lists| == |s.lists| && LinkOf(r, p)
  {
    hide CondFree, BucketFree;
    StepPhase(s, t, p);
    assert LinkOf(s, p);
  }

  lemma {:induction false} StepLinks(s: State, t: Step)
    requires Sized(s) && LinksExact(s) && Enabled(s, t) && CleanKill(s, t)
    ensures LinksExact(Next(s, t))
  {
    StepLink(s, t, t.p);
    var r := Next(s, t);
    forall p: nat | p < |r.ph| ensures LinkOf(r, p) {
      StepLink(s, t, p);
    }
  }

  // ---- tickets

  lemma {:induction false} StepTicket(s: State, t: Step, p: Pid)
    requires Sized(s) && Tickets(s) && Enabled(s, t) && p < |s.ph|
    ensures var r := Next(s, t);
            && |r.ph| == |s.ph| == |r.ticket|
            && (r.ticket[p] == if t.GrabBucket? && p == t.p then s.nextTicket else s.ticket[p])
            && (Going(r.ph[p]) ==> r.ticket[p] < r.nextTicket && r.ticket[p] !in r.woken)
            && (Going(r.ph[p]) ==> Going(s.ph[p]) || (t.GrabBucket? && p == t.p))
  {
    hide CondFree, BucketFree;
    StepPhase(s, t, p);
    if Wakes(s, t, p) {
      assert !Going(Next(s, t).ph[p]);
    } else {
      TicketKept(s, t, p);
    }
  }

  /** The tickets a step adds to woken are those of the sleeps it ends. */
  lemma {:induction false} TicketKept(s: State, t: Step, p: Pid)
    requires Sized(s) && Tickets(s) && Enabled(s, t) && p < |s.ph| && !Wakes(s, t, p)
    ensures var r := Next(s, t);
            |r.ph| == |s.ph| == |r.ticket| && s.nextTicket <= r.nextTicket
            && (Going(r.ph[p]) && Going(s.ph[p]) ==> s.ticket[p] < s.nextTicket && s.ticket[p] !in r.woken)
            && s.nextTicket !in r.woken
  {
    hide CondFree, BucketFree;
  }

  lemma {:induction false} StepTickets(s: State, t: Step)
    requires Sized(s) && Tickets(s) && Enabled(s, t)
    ensures Tickets(Next(s, t))
  {
    StepPhase(s, t, t.p);
    var r := Next(s, t);
    assert forall n :: n in r.woken ==> n < r.nextTicket;
    assert |r.ph| == |s.ph| == |r.ticket|;
    hide Next, Enabled;
    forall p | 0 <= p < |r.ph| && Going(r.ph[p]) ensures r.ticket[p] < r.nextTicket && r.ticket[p] !in r.woken {
      StepTicket(s, t, p);
    }
    forall p, q | 0 <= p < |r.ph| && 0 <= q < |r.ph| && p != q && Going(r.ph[p]) && Going(r.ph[q])
      ensures r.ticket[p] != r.ticket[q]
    {
      StepTicket(s, t, p);
      StepTicket(s, t, q);
    }
  }

  // ---- scanning and owing

  /** A clean kill changes the list of the bucket it holds only. */
  lemma {:induction false} VictimElsewhere(s: State, t: Step, b: nat)
    requires Sized(s) && ListsExact(s) && LinksExact(s) && Enabled(s, t) && t.KillEnd? && CleanKill(s, t)
    requires b < |s.lists| && (s.kill[t.p].Holding? ==> s.kill[t.p].b != b)
    ensures forall q: nat :: q in s.lists[b] ==> !Wakes(s, t, q)
  {
    var q := s.kill[t.p].q;
    assert Listed(s, b, q) && LinkOf(s, q);
  }

  lemma {:induction false} OthersLeaveList(s: State, t: Step, w: Pid)
    requires Sized(s) && Exclusive(s) && Killers(s) && ListsExact(s) && LinksExact(s) && Enabled(s, t)
             && CleanKill(s, t)
    requires w < |s.ph| && s.ph[w].Scanning? && t.p != w
    ensures forall q: nat :: q in s.lists[Bucket(s, s.ph[w].c)] ==> !Wakes(s, t, q)
  {
    hide Next;
    assert Apart(s.ph[t.p], s.ph[w], |s.lists|) && KillerApart(s, t.p, w);
    if t.KillEnd? {
      VictimElsewhere(s, t, Bucket(s, s.ph[w].c));
    }
    forall q: nat | q in s.lists[Bucket(s, s.ph[w].c)] ensures !Wakes(s, t, q) {
      assert Listed(s, Bucket(s, s.ph[w].c), q);
    }
  }

  /** A scan goes over the list it found, in order. */
  lemma {:induction false} ScanFrom(s: State, t: Step, w: Pid)
    requires Enabled(s, t) && w < |s.ph| && |Next(s, t).ph| == |s.ph| && Next(s, t).ph[w].Scanning?
    ensures Next(s, t).ph[w].c == s.ph[w].c && (t.p != w ==> s.ph[w] == Next(s, t).ph[w])
    ensures t.p == w ==> t.StartScan? || t.Visit?
  {
    StepPhase(s, t, w);
  }

  lemma {:induction false} OwnScan(s: State, t: Step)
    requires Sized(s) && Enabled(s, t) && (t.StartScan? || t.Visit?) && ListsExact(s) && ScansList(s, t.p)
    ensures var r := Next(s, t);
            && t.p < |r.ph| && r.ph[t.p].Scanning? && |r.lists| == |s.lists| && NoRepeats(r.ph[t.p].todo)
            && forall q :: q in r.ph[t.p].todo ==> q in r.lists[Bucket(s, s.ph[t.p].c)]
  {
    hide LinksExact;
    var b := Bucket(s, s.ph[t.p].c);
    if t.Visit? {
      var todo := s.ph[t.p].todo;
      assert todo == [todo[0]] + todo[1..];
      RemoveShape(s.lists[b], todo[0]);
    }
  }

  /** Nobody the waker is still to visit leaves the list. */
  lemma {:induction false} ScanKept(s: State, t: Step, w: Pid)
    requires Sized(s) && ListsExact(s) && LinksExact(s) && Enabled(s, t) && CleanKill(s, t)
    requires w < |s.ph| && s.ph[w].Scanning? && ScansList(s, w)
    requires forall q: nat :: q in s.lists[Bucket(s, s.ph[w].c)] ==> !Wakes(s, t, q)
    ensures |Next(s, t).lists| == |s.lists|
    ensures forall q :: q in s.ph[w].todo ==> q in Next(s, t).lists[Bucket(s, s.ph[w].c)]
  {
    hide Next, Enabled, ListsExact, LinksExact, CleanKill;
    StepList(s, t, Bucket(s, s.ph[w].c));
  }

  /** While a waker scans a bucket, nobody else changes that bucket's list. */
  lemma {:induction false} StepScans(s: State, t: Step, w: Pid)
    requires Sized(s) && Exclusive(s) && Killers(s) && ListsExact(s) && LinksExact(s)
    requires Enabled(s, t) && CleanKill(s, t) && w < |s.ph| && ScansList(s, w)
    ensures |Next(s, t).ph| == |s.ph| && |Next(s, t).lists| == |s.lists| && ScansList(Next(s, t), w)
  {
    hide Next, Enabled, Exclusive, Killers, ListsExact, LinksExact, CleanKill;
    StepOwn(s, t);
    var r := Next(s, t);
    if r.ph[w].Scanning? {
      var b := Bucket(s, r.ph[w].c);
      StepList(s, t, b);
      ScanFrom(s, t, w);
      if t.p != w {
        OthersLeaveList(s, t, w);
        ScanKept(s, t, w);
      } else {
        OwnScan(s, t);
      }
    }
  }

  /** A sleeper stays one until it is woken. */
  lemma {:induction false} StepWaits(s: State, t: Step, n: nat, p: Pid, c: Chan)
    requires Sized(s) && Enabled(s, t) && Waits(s, n, p, c)
    ensures Waits(Next(s, t), n, p, c) || n in Next(s, t).woken
    ensures Wakes(s, t, p) ==> n in Next(s, t).woken
    ensures s.woken <= Next(s, t).woken
  {
    StepPhase(s, t, p);
  }

  /** What is left to scan: all of the list at first, and then what the last visit left. */
  lemma {:induction false} StepTodo(s: State, t: Step, w: Pid, p: Pid)
    requires Enabled(s, t) && w < |s.ph| && AtWork(s.ph[w]) && |Next(s, t).ph| == |s.ph| && Next(s, t).ph[w].Scanning?
    requires if s.ph[w].Scanning? then p in s.ph[w].todo else p in s.lists[Bucket(s, s.ph[w].c)]
    ensures p in Next(s, t).ph[w].todo || (t == Visit(w) && p == s.ph[w].todo[0])
  {
    StepPhase(s, t, w);
    if t == Visit(w) {
      assert s.ph[w].todo == [s.ph[w].todo[0]] + s.ph[w].todo[1..];
    }
  }

  lemma {:induction false} StepDue(s: State, t: Step, w: Pid, n: nat)
    requires Sized(s) && Exclusive(s) && ListsExact(s) && Enabled(s, t) && w < |s.ph|
    requires AtWork(s.ph[w]) && Due(s, w, n) && ScansList(s, w)
    requires |Next(s, t).ph| == |s.ph|
    ensures Due(Next(s, t), w, n)
  {
    hide Next, Enabled, ListsExact, Exclusive;
    var r := Next(s, t);
    if AtWork(r.ph[w]) {
      StaysAtWork(s, t, w);
      StepWoken(s, t);
      if n !in r.woken {
        var c := s.ph[w].c;
        var p :| Waits(s, n, p, c) && (s.ph[w].Scanning? ==> p in s.ph[w].todo);
        StepWaits(s, t, n, p, c);
        if r.ph[w].Scanning? {
          WaiterListed(s, t, w, n, p);
          StepTodo(s, t, w, p);
        }
      }
    }
  }

  lemma {:induction false} StepWoken(s: State, t: Step)
    requires Enabled(s, t)
    ensures s.woken <= Next(s, t).woken
  {
  }

  lemma {:induction false} StaysAtWork(s: State, t: Step, w: Pid)
    requires Enabled(s, t) && w < |s.ph| && AtWork(s.ph[w]) && |Next(s, t).ph| == |s.ph| && AtWork(Next(s, t).ph[w])
    ensures Next(s, t).ph[w].c == s.ph[w].c && (s.ph[w].Scanning? ==> Next(s, t).ph[w].Scanning?)
  {
    StepPhase(s, t, w);
  }

  /** When a scan begins, whoever is owed a wakeup is on the list; the next to be visited is woken by it. */
  lemma {:induction false} WaiterListed(s: State, t: Step, w: Pid, n: nat, p: Pid)
    requires Sized(s) && Exclusive(s) && ListsExact(s) && Enabled(s, t) && w < |s.ph| && AtWork(s.ph[w])
             && ScansList(s, w)
    requires Waits(s, n, p, s.ph[w].c) && (s.ph[w].Scanning? ==> p in s.ph[w].todo)
    requires |Next(s, t).ph| == |s.ph| && Next(s, t).ph[w].Scanning? && n !in Next(s, t).woken
    ensures !s.ph[w].Scanning? ==> p in s.lists[Bucket(s, s.ph[w].c)]
    ensures !(t == Visit(w) && p == s.ph[w].todo[0])
  {
    assert Listed(s, Bucket(s, s.ph[w].c), p);
    StepPhase(s, t, w);
    StepWaits(s, t, n, p, s.ph[w].c);
    assert p != w ==> Apart(s.ph[p], s.ph[w], |s.lists|);
  }

  lemma {:induction false} StepCovers(s: State, t: Step, w: Pid, p: Pid)
    requires Sized(s) && Exclusive(s) && Enabled(s, t) && w < |s.ph| && p < |s.ph|
    requires AtWork(s.ph[w]) && Owed(s, w)
    ensures var r := Next(s, t);
            && |r.ph| == |s.ph| == |r.ticket| == |r.must|
            && (AtWork(r.ph[w]) && Committed(r.ph[p]) && r.ph[p].c == r.ph[w].c ==> r.ticket[p] in r.must[w])
  {
    StepPhase(s, t, w);
    StepPhase(s, t, p);
    if p != w {
      assert Apart(s.ph[p], s.ph[w], |s.lists|);
    }
  }

  lemma {:induction false} StepOwed(s: State, t: Step, w: Pid)
    requires Sized(s) && Exclusive(s) && ListsExact(s) && Enabled(s, t)
    requires w < |s.ph| && Owed(s, w) && ScansList(s, w)
    ensures Sized(Next(s, t)) && |Next(s, t).ph| == |s.ph| && Owed(Next(s, t), w)
  {
    StepSized(s, t);
    StepPhase(s, t, w);
    var r := Next(s, t);
    if AtWork(r.ph[w]) {
      if AtWork(s.ph[w]) {
        assert r.must[w] == s.must[w];
        forall n | n in r.must[w] ensures Due(r, w, n) {
          StepDue(s, t, w, n);
        }
        forall p | 0 <= p < |r.ph| && Committed(r.ph[p]) && r.ph[p].c == r.ph[w].c ensures r.ticket[p] in r.must[w] {
          StepCovers(s, t, w, p);
        }
      } else {
        ChangeOwes(s, w);
      }
    }
  }

  lemma {:induction false} ChangeOwes(s: State, w: Pid)
    requires Sized(s) && Enabled(s, Change(w))
    ensures Owed(Next(s, Change(w)), w)
  {
    var r := Next(s, Change(w));
    forall n | n in r.must[w] ensures Due(r, w, n) {
      var p :| 0 <= p < |s.ph| && Committed(s.ph[p]) && s.ph[p].c == s.ph[w].c && s.ticket[p] == n;
      assert Waits(r, n, p, s.ph[w].c);
    }
  }

  // ---- nobody sleeps through a wakeup

  /** When a waker has been through its list, nobody is asleep on its channel or about to be. */
  lemma {:induction false} ScanLeavesNobody(s: State, w: Pid, p: Pid)
    requires Sized(s) && Exclusive(s) && Tickets(s) && w < |s.ph| && p < |s.ph| && Owed(s, w)
    requires s.ph[w].Scanning? && s.ph[w].todo == []
    ensures !(Going(s.ph[p]) && s.ph[p].c == s.ph[w].c)
  {
    assert p != w ==> Apart(s.ph[p], s.ph[w], |s.lists|);
    assert Committed(s.ph[p]) && s.ph[p].c == s.ph[w].c ==> Due(s, w, s.ticket[p]);
  }

  /** A condition becomes true by Change only. */
  lemma {:induction false} StepCond(s: State, t: Step, c: Chan)
    requires Sized(s) && Enabled(s, t) && c in Next(s, t).cond && Next(s, t).cond[c]
    ensures (c in s.cond && s.cond[c]) || (t.Change? && s.ph[t.p].c == c)
    ensures t.Change? ==> t.p < |Next(s, t).ph| && AtWork(Next(s, t).ph[t.p]) && Next(s, t).ph[t.p].c == s.ph[t.p].c
  {
  }

  /** Whoever is going to sleep was so before, or has just found its condition false. */
  lemma {:induction false} StepGoing(s: State, t: Step, p: Pid)
    requires Enabled(s, t) && p < |s.ph| && p < |Next(s, t).ph| && Going(Next(s, t).ph[p])
    ensures !s.ph[p].Away? && Next(s, t).ph[p].c == s.ph[p].c
    ensures Going(s.ph[p]) ||
            (t == GrabBucket(p) && s.ph[p].c in s.cond && !s.cond[s.ph[p].c] && Next(s, t).cond == s.cond)
  {
    hide CondFree;
    StepPhase(s, t, p);
  }

  /** A waker stays at work until the end of its scan. */
  lemma {:induction false} StepAtWork(s: State, t: Step, w: Pid)
    requires Enabled(s, t) && w < |s.ph| && AtWork(s.ph[w]) && t != EndScan(w)
    ensures |Next(s, t).ph| == |s.ph| && AtWork(Next(s, t).ph[w]) && Next(s, t).ph[w].c == s.ph[w].c
  {
    StepPhase(s, t, w);
  }

  lemma {:induction false} StepFresh(s: State, t: Step, p: Pid)
    requires Sized(s) && Exclusive(s) && Tickets(s) && NoStale(s) && Enabled(s, t) && p < |s.ph|
    requires forall w: nat :: w < |s.ph| ==> Owed(s, w)
    requires var r := Next(s, t); p < |r.ph| && Going(r.ph[p]) && r.ph[p].c in r.cond && r.cond[r.ph[p].c]
    ensures BeingWoken(Next(s, t), Next(s, t).ph[p].c)
  {
    hide Exclusive, Tickets, Next, Owed;
    var r := Next(s, t);
    var c := r.ph[p].c;
    StepOwn(s, t);
    StepGoing(s, t, p);
    StepCond(s, t, c);
    if !(t.Change? && s.ph[t.p].c == c) {
      var w :| 0 <= w < |s.ph| && AtWork(s.ph[w]) && s.ph[w].c == c;
      if t == EndScan(w) {
        ScanLeavesNobody(s, w, p);
      }
      StepAtWork(s, t, w);
    }
  }

  /** Every step keeps the invariant; a kill if it is clean. */
  lemma {:induction false} StepInv(s: State, t: Step)
    requires Inv(s) && Enabled(s, t) && CleanKill(s, t)
    ensures Inv(Next(s, t))
  {
    hide Next, Exclusive, Killers, ListsExact, LinksExact, Tickets, Owed, ScansList, BeingWoken, CleanKill, Enabled;
    StepSized(s, t);
    StepExclusive(s, t);
    StepKillers(s, t);
    StepLists(s, t);
    StepLinks(s, t);
    StepTickets(s, t);
    StepOwn(s, t);
    var r := Next(s, t);
    forall p | 0 <= p < |r.ph| && Going(r.ph[p]) && r.ph[p].c in r.cond && r.cond[r.ph[p].c]
      ensures BeingWoken(r, r.ph[p].c)
    {
      StepFresh(s, t, p);
    }
    forall w: nat | w < |r.ph| ensures Owed(r, w) && ScansList(r, w) {
      StepOwed(s, t, w);
      StepScans(s, t, w);
    }
  }

  lemma {:induction false} StepOwn(s: State, t: Step)
    requires Enabled(s, t)
    ensures var r := Next(s, t);
            t.p < |s.ph| && |r.ph| == |s.ph| == |s.kill| == |r.kill| && |r.lists| == |s.lists| > 0
  {
    StepPhase(s, t, t.p);
    StepKiller(s, t, t.p);
  }

  // ---- what a kill does to the lists

  /** The second half of kkill keeps the wait lists exact if and only if the victim is not asleep, or is linked to the
      bucket that the first half read. A victim that goes to sleep in between stays on a list although it is
      RUNNABLE. */
  lemma {:induction false} KillKeepsListsIff(s: State, k: Pid)
    requires Inv(s) && Enabled(s, KillEnd(k))
    ensures ListsExact(Next(s, KillEnd(k))) <==> CleanKill(s, KillEnd(k))
  {
    hide Exclusive, Killers, Tickets, Owed, ScansList, NoStale;
    if CleanKill(s, KillEnd(k)) {
      StepLists(s, KillEnd(k));
    } else {
      var q := s.kill[k].q;
      var b := Bucket(s, s.ph[q].c);
      assert LinkOf(s, q) && Listed(s, b, q);
      assert !Listed(Next(s, KillEnd(k)), b, q);
    }
  }

  // ---- whole runs

  /** n processes that hold nothing, with empty wait lists. */
  ghost predicate Initial(s: State) {
    && |s.ph| == |s.ticket| == |s.must| == |s.link| == |s.kill| && |s.lists| > 0
    && (forall p :: 0 <= p < |s.ph| ==> s.ph[p].Away? && s.link[p] == None && s.kill[p].Idle?)
    && (forall b :: 0 <= b < |s.lists| ==> s.lists[b] == [])
    && s.woken == {}
  }

  ghost predicate Run(s: State, ts: seq<Step>, r: State)
    decreases |ts|
  {
    if ts == [] then r == s else Enabled(s, ts[0]) && Run(Next(s, ts[0]), ts[1..], r)
  }

  /** Every kill of the run is clean. */
  ghost predicate AllClean(s: State, ts: seq<Step>)
    decreases |ts|
  {
    ts != [] ==> Enabled(s, ts[0]) && CleanKill(s, ts[0]) && AllClean(Next(s, ts[0]), ts[1..])
  }

  /** The wait lists are exact in every state of the run. */
  ghost predicate AllExact(s: State, ts: seq<Step>)
    decreases |ts|
  {
    ListsExact(s) && (ts != [] ==> Enabled(s, ts[0]) && AllExact(Next(s, ts[0]), ts[1..]))
  }

  lemma {:induction false} RunInv(s: State, ts: seq<Step>, r: State)
    requires Inv(s) && Run(s, ts, r) && AllClean(s, ts)
    ensures Inv(r)
    decreases |ts|
  {
    hide Inv, Enabled, Next, CleanKill;
    if ts != [] {
      StepInv(s, ts[0]);
      RunInv(Next(s, ts[0]), ts[1..], r);
    }
  }

  lemma {:induction false} InitialInv(s: State)
    requires Initial(s)
    ensures Inv(s)
  {
    hide Exclusive, Tickets, NoStale, Killers;
    InitialQuiet(s);
    InitialLocks(s);
  }

  lemma {:induction false} InitialQuiet(s: State)
    requires Initial(s)
    ensures Tickets(s) && NoStale(s)
  {
  }

  lemma {:induction false} InitialLocks(s: State)
    requires Initial(s)
    ensures Exclusive(s) && Killers(s)
  {
  }

  lemma {:induction false} InvLists(s: State)
    requires Inv(s)
    ensures Sized(s) && ListsExact(s)
  {
    hide ListsExact;
  }

  lemma {:induction false} OtherStepsClean(s: State, t: Step)
    requires Enabled(s, t) && !t.KillEnd?
    ensures CleanKill(s, t)
  {
  }

  lemma {:induction false} NextExact(s: State, ts: seq<Step>)
    requires AllExact(s, ts)
    ensures ListsExact(s)
  {
    hide ListsExact;
  }

  /** In a run from an initial state a process is always on a wait list exactly while it is SLEEPING if and only if
      every kill finds its victim awake or still linked to the bucket it read. */
  lemma {:induction false} ListsExactIff(s: State, ts: seq<Step>, r: State)
    requires Inv(s) && Run(s, ts, r)
    ensures AllExact(s, ts) <==> AllClean(s, ts)
    decreases |ts|
  {
    hide Inv, Enabled, Next, CleanKill, ListsExact;
    InvLists(s);
    if ts != [] {
      var n := Next(s, ts[0]);
      StepOwn(s, ts[0]);
      if ts[0].KillEnd? {
        KillKeepsListsIff(s, ts[0].p);
      } else {
        OtherStepsClean(s, ts[0]);
      }
      if CleanKill(s, ts[0]) {
        StepInv(s, ts[0]);
        ListsExactIff(n, ts[1..], r);
      } else if AllExact(n, ts[1..]) {
        NextExact(n, ts[1..]);
      }
    }
  }

  /** In every reachable state, whoever sleeps, or is about to sleep, on a condition that is true has a waker at
      work on that channel: a change made after the sleeper looked is never lost. */
  lemma {:induction false} NoLostWakeup(s: State, ts: seq<Step>, r: State, p: Pid)
    requires Initial(s) && Run(s, ts, r) && AllClean(s, ts)
    requires p < |r.ph| && Going(r.ph[p]) && r.ph[p].c in r.cond && r.cond[r.ph[p].c]
    ensures BeingWoken(r, r.ph[p].c)
  {
    hide Run, AllClean, Going, BeingWoken, Initial, Sized, Exclusive, Killers, ListsExact, LinksExact, Tickets, Owed,
         ScansList;
    InitialInv(s);
    RunInv(s, ts, r);
  }

  /** When a wakeup ends, every sleep it found on its channel has been ended, and nobody is asleep on that channel. */
  lemma {:induction false} WakeupComplete(s: State, ts: seq<Step>, r: State, w: Pid)
    requires Initial(s) && Run(s, ts, r) && AllClean(s, ts) && Enabled(r, EndScan(w))
    ensures r.must[w] <= r.woken
    ensures forall p: nat :: p < |r.ph| && Going(r.ph[p]) ==> r.ph[p].c != r.ph[w].c
  {
    hide Run, AllClean, Initial, Killers, ListsExact, LinksExact, NoStale;
    InitialInv(s);
    RunInv(s, ts, r);
    assert Owed(r, w);
    forall n | n in r.must[w] ensures n in r.woken {
      assert Due(r, w, n);
    }
    forall p: nat | p < |r.ph| && Going(r.ph[p]) ensures r.ph[p].c != r.ph[w].c {
      ScanLeavesNobody(r, w, p);
    }
  }

  /** In every reachable state a process is on a wait list exactly while it is SLEEPING, on the list of its own
      channel's bucket and once. */
  lemma {:induction false} ListedIffSleeping(s: State, ts: seq<Step>, r: State)
    requires Initial(s) && Run(s, ts, r) && AllClean(s, ts)
    ensures ListsExact(r)
  {
    hide Run, AllClean, Initial, ListsExact;
    InitialInv(s);
    RunInv(s, ts, r);
  }

  // ---- a run with a kill that is not clean

  /** sleep by p on c, from the condition lock to sched. */
  function SleepSteps(p: Pid, c: Chan): (ts: seq<Step>) {
    [AcquireCond(p, c), GrabBucket(p), LockSelf(p), DropCond(p), Enqueue(p), DropBucket(p), Switch(p)]
  }

  lemma {:induction false} RunMore(s: State, ts: seq<Step>, r: State, t: Step)
    requires Run(s, ts, r) && Enabled(r, t)
    ensures Run(s, ts + [t], Next(r, t))
    decreases |ts|
  {
    hide Enabled, Next;
    if ts != [] {
      RunMore(Next(s, ts[0]), ts[1..], r, t);
      assert (ts + [t])[1..] == ts[1..] + [t];
    }
  }

  /** Any two processes and any channel whose condition is false: k looks at q for kkill, q goes to sleep, and k comes
      back. q is then RUNNABLE and on the wait list. */
  lemma {:induction false} StaleKill(s: State, k: Pid, q: Pid, c: Chan) returns (ts: seq<Step>, r: State)
    requires Initial(s) && k < |s.ph| && q < |s.ph| && k != q && c in s.cond && !s.cond[c]
    ensures Run(s, ts, r) && !ListsExact(r)
    ensures q < |r.ph| && r.ph[q] == Ready(c) && |r.lists| > 0 && q in r.lists[Bucket(r, c)]
    ensures ts == [KillLook(k, q)] + SleepSteps(q, c) + [KillEnd(k)]
  {
    hide Run, ListsExact;
    ts, r := StaleStart(s, k, q, c);
    var b := Bucket(s, c);
    RunMore(s, ts, r, KillEnd(k));
    ts, r := ts + [KillEnd(k)], Next(r, KillEnd(k));
    assert !Listed(r, b, q);
    NotListed(r, b, q);
  }

  lemma {:induction false} RunNothing(s: State)
    ensures Run(s, [], s)
  {
  }

  lemma {:induction false} NotListed(s: State, b: nat, p: Pid)
    requires |s.lists| > 0 && b < |s.lists| && !Listed(s, b, p)
    ensures !ListsExact(s)
  {
  }

  /** r is the state after kkill's first look by k and i steps of q going to sleep. */
  ghost predicate Reached(s: State, r: State, k: Pid, q: Pid, c: Chan, i: nat) {
    && Sized(r) && |r.ph| == |s.ph| && q < |s.ph| && k < |s.kill| && |s.lists| > 0 && q < |s.link|
    && r.kill == s.kill[k := Looked(q, None)] && r.cond == s.cond
    && r.ph == (if i == 0 then s.ph else s.ph[q := PhaseAt(i, c)])
    && r.lists == (if i < 5 then s.lists else s.lists[Bucket(s, c) := [q]])
    && r.link == (if i < 5 then s.link else s.link[q := Some(Bucket(s, c))])
  }

  lemma {:induction false} ReachedMore(s: State, r: State, k: Pid, q: Pid, c: Chan, i: nat)
    requires Initial(s) && k < |s.ph| && q < |s.ph| && k != q && c in s.cond && !s.cond[c]
    requires Reached(s, r, k, q, c, i) && i < 7
    ensures Enabled(r, SleepSteps(q, c)[i]) && Reached(s, Next(r, SleepSteps(q, c)[i]), k, q, c, i + 1)
  {
    assert forall p :: 0 <= p < |s.ph| && p != q ==> r.ph[p].Away?;
    assert forall p :: 0 <= p < |s.ph| ==> !r.kill[p].Holding?;
    if i < 2 {
      GoingDown(s, r, k, q, c, i);
    } else {
      StepSized(r, SleepSteps(q, c)[i]);
      assert i == 4 ==> s.lists[Bucket(s, c)] == [] && [q] + [] == [q];
    }
  }

  /** The two steps that need a lock. */
  lemma {:induction false} GoingDown(s: State, r: State, k: Pid, q: Pid, c: Chan, i: nat)
    requires Initial(s) && k < |s.ph| && q < |s.ph| && k != q && c in s.cond && !s.cond[c]
    requires Reached(s, r, k, q, c, i) && i < 2
    requires forall p :: 0 <= p < |s.ph| && p != q ==> r.ph[p].Away?
    requires forall p :: 0 <= p < |s.ph| ==> !r.kill[p].Holding?
    ensures Enabled(r, SleepSteps(q, c)[i]) && Reached(s, Next(r, SleepSteps(q, c)[i]), k, q, c, i + 1)
  {
    var t := SleepSteps(q, c)[i];
    assert t == if i == 0 then AcquireCond(q, c) else GrabBucket(q);
    assert CondFree(r, c) || i == 1;
    StepSized(r, t);
  }

  lemma {:induction false} ReachedStart(s: State, k: Pid, q: Pid, c: Chan)
    requires Initial(s) && k < |s.ph| && q < |s.ph|
    ensures Enabled(s, KillLook(k, q)) && Reached(s, Next(s, KillLook(k, q)), k, q, c, 0)
  {
  }

  /** The run up to kkill's second look. */
  lemma {:induction false} StaleStart(s: State, k: Pid, q: Pid, c: Chan) returns (ts: seq<Step>, r: State)
    requires Initial(s) && k < |s.ph| && q < |s.ph| && k != q && c in s.cond && !s.cond[c]
    ensures ts == [KillLook(k, q)] + SleepSteps(q, c) && Run(s, ts, r) && Reached(s, r, k, q, c, 7)
  {
    hide Run, Reached, Enabled, Next, Initial;
    RunNothing(s);
    ReachedStart(s, k, q, c);
    RunMore(s, [], s, KillLook(k, q));
    assert [] + [KillLook(k, q)] == [KillLook(k, q)];
    ts, r := [KillLook(k, q)], Next(s, KillLook(k, q));
    var all := SleepSteps(q, c);
    var i := 0;
    assert ts + all[..0] == ts;
    while i < 7
      invariant 0 <= i <= |all| == 7 && ts == [KillLook(k, q)] + all[..i] && Run(s, ts, r) && Reached(s, r, k, q, c, i)
    {
      ReachedMore(s, r, k, q, c, i);
      RunMore(s, ts, r, all[i]);
      ts, r := ts + [all[i]], Next(r, all[i]);
      assert all[..i] + [all[i]] == all[..i + 1];
      i := i + 1;
    }
    assert all[..7] == all;
  }

  /** Where a sleeper is after so many of its steps. */
  function PhaseAt(i: nat, c: Chan): (ph: Phase) {
    if i == 1 then Held(c) else if i == 2 then Grabbed(c) else if i == 3 then Locked(c) else if i == 4 then Dropped(c)
    else if i == 5 then Queued(c) else if i == 6 then Leaving(c) else Asleep(c)
  }
}
