/** The wait buckets of kernel/proc.c: null-terminated doubly linked lists threaded through the process table. */
module WaitTable {
  import opened Blocks
  import opened Counting
  import opened Ring
  import Protocol = SleepWakeup

  const NIL := -1

  datatype ProcState = UNUSED | USED | SLEEPING | RUNNABLE | RUNNING | ZOMBIE

  /** The bucket heads, and per process its two links and the bucket it is linked to. */
  datatype Links = Links(head: seq<int>, next: seq<int>, prev: seq<int>, bucket: seq<int>)

  function Nth(l: seq<nat>, k: int): (p: int) {
    if 0 <= k < |l| then l[k] else NIL
  }

  predicate LinkedAt(next: seq<int>, prev: seq<int>, l: seq<nat>, k: nat) {
    && k < |l| && l[k] < |next| == |prev|
    && next[l[k]] == Nth(l, k + 1) && prev[l[k]] == Nth(l, k - 1)
  }

  /** Bucket b holds l: the links walk it in both directions, and exactly its members are linked to b. */
  ghost predicate Holds(t: Links, b: nat, l: seq<nat>) {
    && b < |t.head| && t.head[b] == Nth(l, 0) && NoRepeats(l)
    && (forall k: nat :: k < |l| ==> LinkedAt(t.next, t.prev, l, k))
    && (forall p: nat :: p in l <==> p < |t.bucket| && t.bucket[p] == b)
  }

  ghost predicate Represents(t: Links, lists: seq<seq<nat>>) {
    && |t.head| == |lists| && |t.next| == |t.prev| == |t.bucket|
    && (forall p :: 0 <= p < |t.bucket| ==> -1 <= t.bucket[p] < |lists|)
    && (forall b: nat :: b < |lists| ==> Holds(t, b, lists[b]))
  }

  // ---- waitlist_insert

  function Insert(t: Links, b: nat, p: nat): (r: Links)
    requires b < |t.head| && p < |t.next| == |t.prev| == |t.bucket| && -1 <= t.head[b] < |t.prev|
  {
    var prev := t.prev[p := NIL];
    Links(t.head[b := p], t.next[p := t.head[b]],
          if t.head[b] != NIL then prev[t.head[b] := p] else prev, t.bucket[p := b])
  }

  lemma {:induction false} InsertOwn(t: Links, b: nat, p: nat, l: seq<nat>)
    requires p < |t.next| == |t.prev| == |t.bucket| && Holds(t, b, l) && t.bucket[p] == NIL
    ensures -1 <= t.head[b] < |t.prev| && Holds(Insert(t, b, p), b, [p] + l)
  {
    assert l != [] ==> LinkedAt(t.next, t.prev, l, 0);
    var r := Insert(t, b, p);
    var o := [p] + l;
    assert p !in l;
    forall k: nat | k < |o| ensures LinkedAt(r.next, r.prev, o, k) {
      assert k >= 1 ==> LinkedAt(t.next, t.prev, l, k - 1) && o[k] == l[k - 1];
      assert k >= 2 ==> o[k] != l[0];
    }
    forall q: nat ensures q in o <==> q < |r.bucket| && r.bucket[q] == b {
      assert q in o <==> q == p || q in l;
    }
  }

  lemma {:induction false} InsertOther(t: Links, b: nat, p: nat, l: seq<nat>, a: nat, m: seq<nat>)
    requires p < |t.next| == |t.prev| == |t.bucket| && Holds(t, b, l) && t.bucket[p] == NIL
    requires a != b && Holds(t, a, m) && -1 <= t.head[b] < |t.prev|
    ensures Holds(Insert(t, b, p), a, m)
  {
    var r := Insert(t, b, p);
    assert l != [] ==> l[0] in l;
    forall k: nat | k < |m| ensures LinkedAt(r.next, r.prev, m, k) {
      assert LinkedAt(t.next, t.prev, m, k);
      assert m[k] in m;
    }
  }

  lemma {:induction false} InsertRepresents(t: Links, lists: seq<seq<nat>>, b: nat, p: nat)
    requires Represents(t, lists) && b < |lists| && p < |t.bucket| && t.bucket[p] == NIL
    ensures -1 <= t.head[b] < |t.prev| && Represents(Insert(t, b, p), lists[b := [p] + lists[b]])
  {
    assert Holds(t, b, lists[b]);
    InsertOwn(t, b, p, lists[b]);
    forall a: nat | a < |lists| && a != b ensures Holds(Insert(t, b, p), a, lists[a]) {
      InsertOther(t, b, p, lists[b], a, lists[a]);
    }
  }

  // ---- waitlist_remove

  function Remove(t: Links, b: nat, p: nat): (r: Links)
    requires b < |t.head| && p < |t.next| == |t.prev| == |t.bucket|
    requires -1 <= t.next[p] < |t.next| && -1 <= t.prev[p] < |t.next|
  {
    var next := if t.prev[p] != NIL then t.next[t.prev[p] := t.next[p]] else t.next;
    var head := if t.prev[p] == NIL && t.head[b] == p then t.head[b := t.next[p]] else t.head;
    var prev := if next[p] != NIL then t.prev[next[p] := t.prev[p]] else t.prev;
    Links(head, next[p := NIL], prev[p := NIL], t.bucket[p := NIL])
  }

  lemma {:induction false} Neighbours(t: Links, b: nat, l: seq<nat>, m: nat)
    requires |t.next| == |t.prev| == |t.bucket| && Holds(t, b, l) && m < |l|
    ensures l[m] < |t.next| && t.next[l[m]] == Nth(l, m + 1) && t.prev[l[m]] == Nth(l, m - 1)
    ensures -1 <= t.next[l[m]] < |t.next| && -1 <= t.prev[l[m]] < |t.next|
    ensures t.next[l[m]] != l[m] && t.prev[l[m]] != l[m]
  {
    assert LinkedAt(t.next, t.prev, l, m);
    assert m > 0 ==> LinkedAt(t.next, t.prev, l, m - 1);
    assert m + 1 < |l| ==> LinkedAt(t.next, t.prev, l, m + 1);
  }

  lemma {:induction false} RemoveLinkedAt(t: Links, b: nat, l: seq<nat>, m: nat, k: nat)
    requires |t.next| == |t.prev| == |t.bucket| && Holds(t, b, l) && m < |l| && k < |l| - 1
    requires l[m] < |t.next| && -1 <= t.next[l[m]] < |t.next| && -1 <= t.prev[l[m]] < |t.next|
    ensures var r := Remove(t, b, l[m]); LinkedAt(r.next, r.prev, RemoveAt(l, m), k)
  {
    Neighbours(t, b, l, m);
    var j := if k < m then k else k + 1;
    assert LinkedAt(t.next, t.prev, l, j);
    assert RemoveAt(l, m)[k] == l[j];
    assert m > 0 && k != m - 1 ==> l[j] != l[m - 1];
    assert m + 1 < |l| && k != m ==> l[j] != l[m + 1];
  }

  lemma {:induction false} RemoveOwn(t: Links, b: nat, l: seq<nat>, m: nat)
    requires |t.next| == |t.prev| == |t.bucket| && Holds(t, b, l) && m < |l|
    ensures l[m] < |t.next| && -1 <= t.next[l[m]] < |t.next| && -1 <= t.prev[l[m]] < |t.next|
    ensures Holds(Remove(t, b, l[m]), b, RemoveAt(l, m))
  {
    Neighbours(t, b, l, m);
    var r := Remove(t, b, l[m]);
    var o := RemoveAt(l, m);
    forall k: nat | k < |o| ensures LinkedAt(r.next, r.prev, o, k) {
      RemoveLinkedAt(t, b, l, m, k);
    }
    forall q: nat ensures q in o <==> q < |r.bucket| && r.bucket[q] == b {
      RemovedMembers(l, m, q);
    }
  }

  lemma {:induction false} RemovedMembers(l: seq<nat>, m: nat, q: nat)
    requires NoRepeats(l) && m < |l|
    ensures q in RemoveAt(l, m) <==> q in l && q != l[m]
    ensures NoRepeats(RemoveAt(l, m))
  {
    assert l == l[..m] + [l[m]] + l[m + 1..];
  }

  lemma {:induction false} RemoveOther(t: Links, b: nat, l: seq<nat>, m: nat, a: nat, o: seq<nat>)
    requires |t.next| == |t.prev| == |t.bucket| && Holds(t, b, l) && m < |l| && a != b && Holds(t, a, o)
    requires l[m] < |t.next| && -1 <= t.next[l[m]] < |t.next| && -1 <= t.prev[l[m]] < |t.next|
    ensures Holds(Remove(t, b, l[m]), a, o)
  {
    Neighbours(t, b, l, m);
    var r := Remove(t, b, l[m]);
    assert l[m] in l && (m > 0 ==> l[m - 1] in l) && (m + 1 < |l| ==> l[m + 1] in l);
    forall k: nat | k < |o| ensures LinkedAt(r.next, r.prev, o, k) {
      assert LinkedAt(t.next, t.prev, o, k);
      assert o[k] in o;
    }
  }

  lemma {:induction false} RemoveRepresents(t: Links, lists: seq<seq<nat>>, b: nat, m: nat)
    requires Represents(t, lists) && b < |lists| && m < |lists[b]|
    ensures var p := lists[b][m];
            && p < |t.next| && -1 <= t.next[p] < |t.next| && -1 <= t.prev[p] < |t.next|
            && Represents(Remove(t, b, p), lists[b := RemoveAt(lists[b], m)])
  {
    assert Holds(t, b, lists[b]);
    RemoveOwn(t, b, lists[b], m);
    forall a: nat | a < |lists| && a != b ensures Holds(Remove(t, b, lists[b][m]), a, lists[a]) {
      RemoveOther(t, b, lists[b], m, a, lists[a]);
    }
  }

  // ---- who a wakeup wakes

  /** wakeup(c) called by process me (NIL outside any process) wakes p. */
  predicate Wakes(state: seq<ProcState>, chan: seq<nat>, me: int, c: nat, p: nat) {
    p < |state| == |chan| && p != me && state[p] == SLEEPING && chan[p] == c
  }

  /** What a wakeup leaves of a list. */
  function Kept(l: seq<nat>, state: seq<ProcState>, chan: seq<nat>, me: int, c: nat): (r: seq<nat>) {
    if l == [] then [] else
      var rest := Kept(l[..|l| - 1], state, chan, me, c);
      if Wakes(state, chan, me, c, l[|l| - 1]) then rest else rest + [l[|l| - 1]]
  }

  lemma {:induction false} KeptStep(all: seq<nat>, i: nat, state: seq<ProcState>, chan: seq<nat>, me: int, c: nat)
    requires i < |all|
    ensures all[..i + 1] == all[..i] + [all[i]]
    ensures Kept(all[..i], state, chan, me, c) + all[i..] ==
              Kept(all[..i], state, chan, me, c) + [all[i]] + all[i + 1..]
    ensures Kept(all[..i + 1], state, chan, me, c) + all[i + 1..] ==
            if Wakes(state, chan, me, c, all[i]) then Kept(all[..i], state, chan, me, c) + all[i + 1..]
            else Kept(all[..i], state, chan, me, c) + all[i..]
  {
    assert all[..i + 1][..i] == all[..i];
  }

  lemma {:induction false} KeptEnds(all: seq<nat>, state: seq<ProcState>, chan: seq<nat>, me: int, c: nat)
    ensures Kept(all[..0], state, chan, me, c) + all[0..] == all && all[..|all|] == all
    ensures Kept(all[..|all|], state, chan, me, c) + all[|all|..] == Kept(all, state, chan, me, c)
  {
    assert all[..|all|] == all;
  }

  lemma {:induction false} KeptMembers(l: seq<nat>, state: seq<ProcState>, chan: seq<nat>, me: int, c: nat, p: nat)
    ensures p in Kept(l, state, chan, me, c) <==> p in l && !Wakes(state, chan, me, c, p)
  {
    if l != [] {
      KeptMembers(l[..|l| - 1], state, chan, me, c, p);
      assert l == l[..|l| - 1] + [l[|l| - 1]];
    }
  }

  /** Of the processes in done, those to be woken are RUNNABLE with a new time slice; all else is as it was. */
  ghost predicate Progress(done: seq<nat>, was: seq<ProcState>, used: seq<nat>, now: seq<ProcState>, nowUsed: seq<nat>,
                           chan: seq<nat>, me: int, c: nat) {
    && |was| == |used| == |now| == |nowUsed| == |chan|
    && forall p: nat :: p < |was| ==> now[p] == (if p in done && Wakes(was, chan, me, c, p) then RUNNABLE else was[p])
                                      && nowUsed[p] == (if p in done && Wakes(was, chan, me, c, p) then 0 else used[p])
  }

  lemma {:induction false} ProgressStep(done: seq<nat>, was: seq<ProcState>, used: seq<nat>, now: seq<ProcState>,
                                        nowUsed: seq<nat>, chan: seq<nat>, me: int, c: nat, p: nat)
    requires Progress(done, was, used, now, nowUsed, chan, me, c) && p < |was| && p !in done
    ensures Wakes(was, chan, me, c, p) <==> Wakes(now, chan, me, c, p)
    ensures if Wakes(was, chan, me, c, p)
            then Progress(done + [p], was, used, now[p := RUNNABLE], nowUsed[p := 0], chan, me, c)
            else Progress(done + [p], was, used, now, nowUsed, chan, me, c)
  {
  }

  lemma {:induction false} ProgressStart(was: seq<ProcState>, used: seq<nat>, chan: seq<nat>, me: int, c: nat)
    requires |was| == |used| == |chan|
    ensures Progress([], was, used, was, used, chan, me, c)
  {
  }

  /** Exactly the processes that Wakes names were made RUNNABLE with a new time slice. */
  ghost predicate WokeExactly(was: seq<ProcState>, used: seq<nat>, now: seq<ProcState>, nowUsed: seq<nat>,
                              chan: seq<nat>, me: int, c: nat) {
    && |was| == |used| == |now| == |nowUsed| == |chan|
    && forall p: nat :: p < |was| ==> now[p] == (if Wakes(was, chan, me, c, p) then RUNNABLE else was[p])
                                      && nowUsed[p] == (if Wakes(was, chan, me, c, p) then 0 else used[p])
  }

  lemma {:induction false} ProgressDone(done: seq<nat>, was: seq<ProcState>, used: seq<nat>, now: seq<ProcState>,
                                        nowUsed: seq<nat>, chan: seq<nat>, me: int, c: nat, t: Links,
                                        lists: seq<seq<nat>>, b: nat)
    requires Progress(done, was, used, now, nowUsed, chan, me, c)
    requires Represents(t, lists) && b < |lists| && |t.bucket| == |was| && done == lists[b]
    requires forall p: nat :: p < |was| && was[p] == SLEEPING && chan[p] == c ==> t.bucket[p] == b
    ensures WokeExactly(was, used, now, nowUsed, chan, me, c)
  {
    assert Holds(t, b, lists[b]);
  }

  lemma {:induction false} AtPlace(t: Links, lists: seq<seq<nat>>, b: nat, kept: seq<nat>, p: nat, rest: seq<nat>)
    requires Represents(t, lists) && b < |lists| && lists[b] == kept + [p] + rest
    ensures |kept| < |lists[b]| && lists[b][|kept|] == p && RemoveAt(lists[b], |kept|) == kept + rest
    ensures p < |t.bucket| == |t.next| && t.next[p] == Nth(rest, 0)
  {
    assert Holds(t, b, lists[b]);
    assert LinkedAt(t.next, t.prev, lists[b], |kept|);
    assert p in lists[b];
  }

  lemma {:induction false} BucketHead(t: Links, lists: seq<seq<nat>>, b: nat)
    requires Represents(t, lists) && b < |t.head|
    ensures |t.head| == |lists| && t.head[b] == Nth(lists[b], 0)
  {
    assert Holds(t, b, lists[b]);
  }

  lemma {:induction false} BucketItem(t: Links, lists: seq<seq<nat>>, b: nat, i: nat)
    requires Represents(t, lists) && b < |lists| && i < |lists[b]|
    ensures lists[b][i] < |t.bucket| && lists[b][i] !in lists[b][..i]
  {
    assert Holds(t, b, lists[b]);
    assert lists[b][i] in lists[b];
  }

  // ---- a link that kkill left behind

  /** The links lead from p through exactly l to the end. */
  ghost predicate Chain(next: seq<int>, p: int, l: seq<nat>) {
    p == Nth(l, 0) && forall k: nat :: k < |l| ==> l[k] < |next| && next[l[k]] == Nth(l, k + 1)
  }

  /** waitlist_remove undoes waitlist_insert, link for link. */
  lemma {:induction false} RemoveUndoesInsert(t: Links, lists: seq<seq<nat>>, b: nat, p: nat)
    requires Represents(t, lists) && b < |lists| && p < |t.next|
    requires t.next[p] == t.prev[p] == t.bucket[p] == NIL
    ensures -1 <= t.head[b] < |t.prev|
    ensures var r := Insert(t, b, p);
            && -1 <= r.next[p] < |r.next| && -1 <= r.prev[p] < |r.next| && b < |r.head|
            && Remove(r, b, p) == t
  {
    assert Holds(t, b, lists[b]);
    assert lists[b] != [] ==> LinkedAt(t.next, t.prev, lists[b], 0) && lists[b][0] in lists[b];
    var r := Insert(t, b, p);
    var u := Remove(r, b, p);
    assert u.head == t.head;
    assert u.next == t.next;
    assert u.prev == t.prev;
    assert u.bucket == t.bucket;
  }

  /** A process still linked in bucket b that goes to sleep on bucket a takes a's list into b's in place of everything
      behind it: no later wakeup on b reaches rest. */
  lemma {:induction false} StaleInsertCuts(t: Links, lists: seq<seq<nat>>, b: nat, front: seq<nat>, p: nat,
                                           rest: seq<nat>, a: nat)
    requires Represents(t, lists) && b < |lists| && lists[b] == front + [p] + rest && a < |lists| && a != b
    ensures p < |t.next| && -1 <= t.head[a] < |t.prev|
    ensures var r := Insert(t, a, p);
            && Chain(r.next, r.head[b], front + [p] + lists[a])
            && forall q :: q in rest ==> q !in front + [p] + lists[a]
  {
    AtPlace(t, lists, b, front, p, rest);
    assert Holds(t, b, lists[b]) && Holds(t, a, lists[a]);
    assert lists[a] != [] ==> LinkedAt(t.next, t.prev, lists[a], 0);
    var r, l := Insert(t, a, p), front + [p] + lists[a];
    forall k: nat | k < |l| ensures l[k] < |r.next| && r.next[l[k]] == Nth(l, k + 1) {
      if k < |front| {
        assert LinkedAt(t.next, t.prev, lists[b], k) && lists[b][k] == front[k] && lists[b][|front|] == p;
      } else if k > |front| {
        var i := k - |front| - 1;
        assert LinkedAt(t.next, t.prev, lists[a], i) && l[k] == lists[a][i] && lists[a][i] in lists[a];
        assert p in lists[b];
      }
    }
    forall q | q in rest ensures q !in l {
      RestApart(t, lists, b, front, p, rest, q);
      assert t.bucket[q] != a;
    }
  }

  lemma {:induction false} RestApart(t: Links, lists: seq<seq<nat>>, b: nat, front: seq<nat>, p: nat, rest: seq<nat>,
                                     q: nat)
    requires Represents(t, lists) && b < |lists| && lists[b] == front + [p] + rest && q in rest
    ensures q !in front + [p] && q < |t.bucket| && t.bucket[q] == b
  {
    assert Holds(t, b, lists[b]);
    var i :| 0 <= i < |rest| && rest[i] == q;
    assert lists[b][|front| + 1 + i] == q;
    assert q in lists[b];
    forall k | 0 <= k < |front + [p]| ensures (front + [p])[k] != q {
      assert lists[b][k] == (front + [p])[k];
    }
  }

  /** Following the links n times. */
  function Walk(next: seq<int>, p: int, n: nat): (q: int)
    decreases n
  {
    if n == 0 || !(0 <= p < |next|) then p else Walk(next, next[p], n - 1)
  }

  lemma {:induction false} WalkChain(next: seq<int>, l: seq<nat>, k: nat, n: nat)
    requires k + n < |l| && forall j: nat :: j < |l| - 1 ==> l[j] < |next| && next[l[j]] == l[j + 1]
    ensures Walk(next, l[k], n) == l[k + n]
    decreases n
  {
    if n > 0 {
      WalkChain(next, l, k + 1, n - 1);
    }
  }

  lemma {:induction false} RingStays(next: seq<int>, ring: seq<nat>, p: nat, n: nat)
    requires p in ring && forall q :: q in ring ==> q < |next| && next[q] in ring
    ensures Walk(next, p, n) in ring
    decreases n
  {
    if n > 0 {
      RingStays(next, ring, next[p], n - 1);
    }
  }

  /** One that goes to sleep on the same bucket closes the list into a ring: the links of its processes lead nowhere
      else, and a wakeup that takes none of them off never comes to its end. */
  lemma {:induction false} StaleInsertLoops(t: Links, lists: seq<seq<nat>>, b: nat, front: seq<nat>, p: nat,
                                            rest: seq<nat>)
    requires Represents(t, lists) && b < |lists| && lists[b] == front + [p] + rest
    ensures p < |t.next| && -1 <= t.head[b] < |t.prev|
    ensures var r := Insert(t, b, p); r.head[b] == p && Walk(r.next, p, |front| + 1) == p
    ensures forall n: nat :: Walk(Insert(t, b, p).next, p, n) in [p] + front
  {
    AtPlace(t, lists, b, front, p, rest);
    assert Holds(t, b, lists[b]);
    assert LinkedAt(t.next, t.prev, lists[b], 0);
    var r, l := Insert(t, b, p), [p] + front + [p];
    forall j: nat | j < |l| - 1 ensures l[j] < |r.next| && r.next[l[j]] == l[j + 1] {
      if j > 0 {
        assert LinkedAt(t.next, t.prev, lists[b], j - 1) && lists[b][j - 1] == front[j - 1] && lists[b][j] == l[j + 1];
        assert lists[b][|front|] == p;
      }
    }
    WalkChain(r.next, l, 0, |front| + 1);
    var ring := [p] + front;
    forall q | q in ring ensures q < |r.next| && r.next[q] in ring {
      var j: nat :| j < |ring| && ring[j] == q;
      assert l[j] == q && l[j + 1] in ring;
    }
    forall n: nat ensures Walk(r.next, p, n) in ring {
      RingStays(r.next, ring, p, n);
    }
  }

  // ---- the steps of the protocol

  /** What the protocol sees of the table. */
  datatype Table = Table(state: seq<ProcState>, chan: seq<nat>, bucket: seq<int>, lists: seq<seq<nat>>)

  ghost predicate MirrorsAt(v: Table, s: Protocol.State, p: nat)
    requires p < |v.state| == |v.chan| == |v.bucket| == |s.ph| == |s.link|
  {
    && (v.state[p] == SLEEPING <==> Protocol.Sleeping(s.ph[p]))
    && (v.state[p] == SLEEPING ==> v.chan[p] == s.ph[p].c)
    && v.bucket[p] == if s.link[p].Some? then s.link[p].value else NIL
  }

  /** The table is that of the protocol's state. */
  ghost predicate Mirrors(v: Table, s: Protocol.State) {
    && |v.state| == |v.chan| == |v.bucket| == |s.ph| == |s.link| && v.lists == s.lists
    && forall p: nat :: p < |s.ph| ==> MirrorsAt(v, s, p)
  }

  /** What sleep does before sched. */
  function Slept(v: Table, p: nat, c: nat): (r: Table)
    requires p < |v.state| == |v.chan| == |v.bucket| && |v.lists| > 0
  {
    var b := c % |v.lists|;
    Table(v.state[p := SLEEPING], v.chan[p := c], v.bucket[p := b], v.lists[b := [p] + v.lists[b]])
  }

  /** What becoming RUNNABLE off bucket b's list does. */
  function Readied(v: Table, b: nat, q: nat): (r: Table)
    requires q < |v.state| == |v.bucket| && b < |v.lists|
  {
    v.(state := v.state[q := RUNNABLE], bucket := v.bucket[q := NIL],
        lists := v.lists[b := Protocol.Remove(v.lists[b], q)])
  }

  /** sleep is the protocol's Enqueue step. */
  lemma {:induction false} SleepIsEnqueue(v: Table, s: Protocol.State, p: nat)
    requires Mirrors(v, s) && Protocol.Enabled(s, Protocol.Enqueue(p))
    ensures Mirrors(Slept(v, p, s.ph[p].c), Protocol.Next(s, Protocol.Enqueue(p)))
  {
    var r, n := Slept(v, p, s.ph[p].c), Protocol.Next(s, Protocol.Enqueue(p));
    forall q: nat | q < |n.ph| ensures MirrorsAt(r, n, q) {
      assert MirrorsAt(v, s, q);
    }
  }

  /** A round of wakeup is the protocol's Visit step. */
  lemma {:induction false} RoundIsVisit(v: Table, s: Protocol.State, w: nat)
    requires Mirrors(v, s) && Protocol.Enabled(s, Protocol.Visit(w))
    ensures var q, c := s.ph[w].todo[0], s.ph[w].c;
            Mirrors(if Wakes(v.state, v.chan, w, c, q) then Readied(v, c % |v.lists|, q) else v,
                    Protocol.Next(s, Protocol.Visit(w)))
  {
    var q, c := s.ph[w].todo[0], s.ph[w].c;
    assert MirrorsAt(v, s, q);
    var r := if Wakes(v.state, v.chan, w, c, q) then Readied(v, c % |v.lists|, q) else v;
    var n := Protocol.Next(s, Protocol.Visit(w));
    forall p: nat | p < |n.ph| ensures MirrorsAt(r, n, p) {
      assert MirrorsAt(v, s, p);
    }
  }

  /** What the second half of kkill does, having read wb as the victim's bucket. */
  function Struck(v: Table, q: nat, wb: int): (r: Table)
    requires q < |v.state| == |v.bucket| && -1 <= wb < |v.lists|
  {
    if v.state[q] != SLEEPING then v
    else if wb != NIL && v.bucket[q] == wb then Readied(v, wb, q)
    else v.(state := v.state[q := RUNNABLE])
  }

  /** The second half of kkill is the protocol's KillEnd step. */
  lemma {:induction false} KillIsStep(v: Table, s: Protocol.State, k: nat, wb: int)
    requires Mirrors(v, s) && Protocol.Enabled(s, Protocol.KillEnd(k)) && -1 <= wb < |v.lists|
    requires wb == if s.kill[k].Holding? then s.kill[k].b else NIL
    ensures Mirrors(Struck(v, s.kill[k].q, wb), Protocol.Next(s, Protocol.KillEnd(k)))
  {
    var q := s.kill[k].q;
    assert MirrorsAt(v, s, q);
    var r, n := Struck(v, q, wb), Protocol.Next(s, Protocol.KillEnd(k));
    forall p: nat | p < |n.ph| ensures MirrorsAt(r, n, p) {
      assert MirrorsAt(v, s, p);
    }
  }

  lemma {:induction false} RemoveMiddle(kept: seq<nat>, p: nat, rest: seq<nat>)
    requires p !in kept
    ensures Protocol.Remove(kept + [p] + rest, p) == kept + rest
    decreases |kept|
  {
    var l := kept + [p] + rest;
    if kept == [] {
      assert l[1..] == rest && kept + rest == rest;
    } else {
      RemoveMiddle(kept[1..], p, rest);
      assert l[1..] == kept[1..] + [p] + rest && kept + rest == [kept[0]] + (kept[1..] + rest);
    }
  }

  lemma {:induction false} BeforeIsOther(t: Links, lists: seq<seq<nat>>, b: nat, m: nat)
    requires Represents(t, lists) && b < |lists| && m < |lists[b]|
    ensures Protocol.Remove(lists[b], lists[b][m]) == RemoveAt(lists[b], m)
  {
    assert Holds(t, b, lists[b]);
    var l := lists[b];
    assert l == l[..m] + [l[m]] + l[m + 1..];
    RemoveMiddle(l[..m], l[m], l[m + 1..]);
  }

  lemma {:induction false} HeadsAndLists(t: Links, lists: seq<seq<nat>>)
    requires Represents(t, lists)
    ensures |t.head| == |lists|
  {
  }

  /** Where a linked process is on its list. */
  lemma {:induction false} PlaceOf(t: Links, lists: seq<seq<nat>>, b: nat, p: nat) returns (m: nat)
    requires Represents(t, lists) && b < |lists| && p < |t.bucket| && t.bucket[p] == b
    ensures m < |lists[b]| && lists[b][m] == p
  {
    assert Holds(t, b, lists[b]);
    assert p in lists[b];
    m :| m < |lists[b]| && lists[b][m] == p;
  }

  class Procs {
    var head: seq<int>
    var wnext: seq<int>
    var wprev: seq<int>
    var wbucket: seq<int>
    var state: seq<ProcState>
    var chan: seq<nat>
    var timesliceUsed: seq<nat>
    ghost var lists: seq<seq<nat>>

    ghost function View(): (t: Links)
      reads this
    {
      Links(head, wnext, wprev, wbucket)
    }

    ghost predicate Linked()
      reads this
    {
      |state| == |chan| == |timesliceUsed| == |wbucket| && |head| > 0 && Represents(View(), lists)
    }

    /** A process is linked to its channel's bucket exactly while it is SLEEPING. */
    ghost predicate Valid()
      reads this
    {
      && Linked()
      && forall p :: 0 <= p < |wbucket| ==> wbucket[p] == if state[p] == SLEEPING then chan[p] % |head| else NIL
    }

    ghost function Image(): (v: Table)
      reads this
    {
      Table(state, chan, wbucket, lists)
    }

    /** procinit: no process is linked. */
    constructor (buckets: nat, n: nat)
      requires buckets > 0
      ensures Valid() && |state| == n && |head| == buckets && lists == seq(buckets, _ => [])
    {
      head := seq(buckets, _ => NIL);
      wnext, wprev, wbucket := seq(n, _ => NIL), seq(n, _ => NIL), seq(n, _ => NIL);
      state, chan, timesliceUsed := seq(n, _ => UNUSED), seq(n, _ => 0), seq(n, _ => 0);
      lists := seq(buckets, _ => []);
    }

    method WaitlistInsert(b: nat, p: nat)
      requires Linked() && b < |head| && p < |wbucket| && wbucket[p] == NIL
      modifies this`head, this`wnext, this`wprev, this`wbucket, this`lists
      ensures Linked() && lists == old(lists)[b := [p] + old(lists[b])]
      ensures wbucket == old(wbucket)[p := b]
    {
      InsertRepresents(View(), lists, b, p);
      ghost var after := Insert(View(), b, p);
      wnext := wnext[p := head[b]];
      wprev := wprev[p := NIL];
      if head[b] != NIL {
        wprev := wprev[head[b] := p];
      }
      head := head[b := p];
      wbucket := wbucket[p := b];
      lists := lists[b := [p] + lists[b]];
      assert View() == after;
    }

    method WaitlistRemove(b: nat, p: nat, ghost m: nat)
      requires Linked() && b < |head| && m < |lists[b]| && lists[b][m] == p
      modifies this`head, this`wnext, this`wprev, this`wbucket, this`lists
      ensures Linked() && lists == old(lists)[b := RemoveAt(old(lists[b]), m)]
      ensures p < |wbucket| && wbucket == old(wbucket)[p := NIL]
    {
      RemoveRepresents(View(), lists, b, m);
      ghost var after := Remove(View(), b, p);
      if wprev[p] != NIL {
        wnext := wnext[wprev[p] := wnext[p]];
      } else if head[b] == p {
        head := head[b := wnext[p]];
      }
      if wnext[p] != NIL {
        wprev := wprev[wnext[p] := wprev[p]];
      }
      wnext := wnext[p := NIL];
      wprev := wprev[p := NIL];
      wbucket := wbucket[p := NIL];
      lists := lists[b := RemoveAt(lists[b], m)];
      assert View() == after;
    }

    /** sleep up to its call of sched(): p goes to the front of its channel's bucket. */
    method Sleep(p: nat, c: nat)
      requires Valid() && p < |state| && state[p] != SLEEPING
      modifies this
      ensures Valid() && |head| == old(|head|)
      ensures state == old(state)[p := SLEEPING] && chan == old(chan)[p := c] && timesliceUsed == old(timesliceUsed)
      ensures lists == old(lists)[c % |head| := [p] + old(lists[c % |head|])]
      ensures |old(lists)| == |head| && Image() == Slept(old(Image()), p, c)
    {
      chan := chan[p := c];
      WaitlistInsert(c % |head|, p);
      state := state[p := SLEEPING];
    }

    /** What wakeup does to a sleeper on its channel. */
    method MakeRunnable(b: nat, p: nat, ghost m: nat)
      requires Valid() && b < |head| && b < |lists| && m < |lists[b]| && lists[b][m] == p && p < |state|
      modifies this
      ensures Valid() && |head| == old(|head|) && chan == old(chan)
      ensures state == old(state)[p := RUNNABLE] && timesliceUsed == old(timesliceUsed)[p := 0]
      ensures lists == old(lists)[b := RemoveAt(old(lists[b]), m)]
      ensures Image() == Readied(old(Image()), b, p)
    {
      BeforeIsOther(View(), lists, b, m);
      WaitlistRemove(b, p, m);
      state := state[p := RUNNABLE];
      timesliceUsed := timesliceUsed[p := 0];
    }

    /** One round of wakeup's loop. */
    method Visit(me: int, c: nat, b: nat, p: nat, ghost kept: seq<nat>, ghost rest: seq<nat>) returns (next: int)
      requires Valid() && b < |head| && b < |lists| && lists[b] == kept + [p] + rest && p < |state|
      modifies this
      ensures Valid() && |head| == old(|head|) && chan == old(chan) && next == Nth(rest, 0)
      ensures if Wakes(old(state), chan, me, c, p)
              then && state == old(state)[p := RUNNABLE] && timesliceUsed == old(timesliceUsed)[p := 0]
                   && lists == old(lists)[b := kept + rest]
              else unchanged(this)
      ensures Image() == if Wakes(old(state), chan, me, c, p) then Readied(old(Image()), b, p) else old(Image())
    {
      hide Represents, RemoveAt, Readied;
      AtPlace(View(), lists, b, kept, p, rest);
      next := wnext[p];
      if p != me {
        if state[p] == SLEEPING && chan[p] == c {
          MakeRunnable(b, p, |kept|);
        }
      }
    }

    /** kkill's first look, with q's lock alone. */
    method KillLook(q: nat) returns (wb: int)
      requires Valid() && q < |state|
      ensures wb == if state[q] == SLEEPING then chan[q] % |head| else NIL
    {
      wb := wbucket[q];
    }

    /** kkill once it holds the lock of the bucket it read and q's lock. It leaves the lists right if and only if q is
        awake or still linked to that bucket. */
    method KillEnd(q: nat, wb: int)
      requires Valid() && q < |state| && -1 <= wb < |head|
      modifies this
      ensures |old(lists)| == |head| == old(|head|) && |state| == |wbucket| == old(|state|)
      ensures Image() == Struck(old(Image()), q, wb)
      ensures timesliceUsed == if old(state[q]) == SLEEPING then old(timesliceUsed)[q := 0] else old(timesliceUsed)
      ensures Linked()
      ensures Valid() <==> (old(state[q]) == SLEEPING ==> wb == old(wbucket[q]))
    {
      hide Represents, RemoveAt, Readied;
      HeadsAndLists(View(), lists);
      if state[q] == SLEEPING {
        if wb != NIL && wbucket[q] == wb {
          ghost var m := PlaceOf(View(), lists, wb, q);
          MakeRunnable(wb, q, m);
        } else {
          state := state[q := RUNNABLE];
          timesliceUsed := timesliceUsed[q := 0];
        }
      }
    }

    /** wakeup: of all processes, exactly the others that sleep on c become RUNNABLE; the rest stay as they were, and
        the rest of the bucket keeps its order. */
    method Wakeup(me: int, c: nat)
      requires Valid()
      modifies this
      ensures Valid() && |head| == old(|head|) && chan == old(chan) && |state| == old(|state|)
      ensures WokeExactly(old(state), old(timesliceUsed), state, timesliceUsed, chan, me, c)
      ensures lists == old(lists)[c % |head| := Kept(old(lists[c % |head|]), old(state), old(chan), me, c)]
    {
      hide Represents, Progress, Wakes, Kept, WokeExactly;
      var b := c % |head|;
      BucketHead(View(), lists, b);
      ghost var all: seq<nat> := lists[b];
      ghost var i: nat := 0;
      var p := head[b];
      ProgressStart(state, timesliceUsed, chan, me, c);
      KeptEnds(all, state, chan, me, c);
      while p != NIL
        invariant Valid() && |head| == old(|head|) == |lists| && chan == old(chan)
        invariant i <= |all| && p == Nth(all, i) && |state| == old(|state|)
        invariant lists[b] == Kept(all[..i], old(state), chan, me, c) + all[i..]
        invariant lists == old(lists)[b := lists[b]]
        invariant Progress(all[..i], old(state), old(timesliceUsed), state, timesliceUsed, chan, me, c)
        decreases |all| - i
      {
        ghost var kept := Kept(all[..i], old(state), chan, me, c);
        BucketItem(old(View()), old(lists), b, i);
        KeptStep(all, i, old(state), chan, me, c);
        ProgressStep(all[..i], old(state), old(timesliceUsed), state, timesliceUsed, chan, me, c, all[i]);
        p := Visit(me, c, b, p, kept, all[i + 1..]);
        i := i + 1;
      }
      ProgressDone(all[..i], old(state), old(timesliceUsed), state, timesliceUsed, chan, me, c,
                   old(View()), old(lists), b);
    }
  }
}
