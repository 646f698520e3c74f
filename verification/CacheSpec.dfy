/** The buffer cache of kernel/bio.c as a state machine over its atomic sections.

    Any number of processes take buffers (bget), lock them, read, modify and write them, and give them
    back (brelse). The machine also carries what no code reads but the argument needs: who holds a
    reference, who is on the way out of brelse, how many pins there are, and the logical disk, which
    changes only when a lock holder changes buffer data.
 */
module CacheSpec {
  import opened Blocks
  import opened Counting

  type Pid = nat
  type Id = (nat, nat)  // device and block number
  type Store = map<nat, Disk>

  predicate InStore(s: Store, id: Id) {
    id.0 in s && id.1 in s[id.0]
  }

  function Get(s: Store, id: Id): Block
    requires InStore(s, id)
  {
    s[id.0][id.1]
  }

  function Put(s: Store, id: Id, b: Block): (r: Store)
    requires InStore(s, id)
  {
    var d: Disk := s[id.0];
    var e: Disk := d[id.1 := b];
    s[id.0 := e]
  }

  datatype Buf = Buf(valid: bool, id: Id, refcnt: nat, data: Block, holder: Option<Pid>)
  datatype Use = Use(refs: set<Pid>, leaving: set<Pid>, pins: nat)
  datatype Cache = Cache(bufs: seq<Buf>, lru: seq<nat>, uses: seq<Use>, disk: Store, logical: Store)

  datatype Step =
    | Take(p: Pid, id: Id, i: nat)     // bget, under bcache.lock
    | Lock(p: Pid, i: nat)             // acquiresleep
    | Load(p: Pid, i: nat)             // bread of an invalid buffer
    | Modify(p: Pid, i: nat, id: Id, b: Block)
    | Write(p: Pid, i: nat)            // bwrite
    | Unlock(p: Pid, i: nat)           // brelse, first half: releasesleep
    | Drop(p: Pid, i: nat)             // brelse, second half, under bcache.lock
    | Pin(p: Pid, i: nat)
    | Unpin(p: Pid, i: nat)

  // ---- the steps

  /** A buffer that already caches id. */
  predicate Hit(c: Cache, id: Id, i: nat) {
    i < |c.bufs| && c.bufs[i].id == id
  }

  /** The least recently used unused buffer (the end of the list is the least recent). */
  predicate Victim(c: Cache, i: nat) {
    exists k ::
      && 0 <= k < |c.lru| && c.lru[k] == i < |c.bufs| && c.bufs[i].refcnt == 0
      && forall j :: k < j < |c.lru| && c.lru[j] < |c.bufs| ==> c.bufs[c.lru[j]].refcnt > 0
  }

  predicate Cached(c: Cache, id: Id) {
    exists i :: 0 <= i < |c.bufs| && c.bufs[i].id == id
  }

  predicate Holds(c: Cache, p: Pid, i: nat) {
    i < |c.bufs| && c.bufs[i].holder == Some(p)
  }

  predicate Clean(c: Cache, i: nat) {
    i < |c.bufs| && InStore(c.disk, c.bufs[i].id) && c.bufs[i].data == Get(c.disk, c.bufs[i].id)
  }

  /** What the code checks, what the locks enforce, and the users' discipline: a modified buffer is
      written or pinned before it is released, and its last pin is taken off only when it is written. */
  predicate Enabled(c: Cache, s: Step)
    requires |c.uses| == |c.bufs|
  {
    match s
    case Take(p, id, i) =>
      && InStore(c.disk, id) && i < |c.bufs|
      && (if Cached(c, id) then Hit(c, id, i) && p !in c.uses[i].refs else Victim(c, i))
    case Lock(p, i) =>
      i < |c.bufs| && p in c.uses[i].refs && p !in c.uses[i].leaving && c.bufs[i].holder == None
    case Load(p, i) => Holds(c, p, i) && !c.bufs[i].valid && InStore(c.disk, c.bufs[i].id)
    case Modify(p, i, id, b) => Holds(c, p, i) && c.bufs[i].valid && c.bufs[i].id == id && InStore(c.logical, id)
    case Write(p, i) => Holds(c, p, i) && c.bufs[i].valid && InStore(c.disk, c.bufs[i].id)
    case Unlock(p, i) => Holds(c, p, i) && (c.uses[i].pins > 0 || (c.bufs[i].valid ==> Clean(c, i)))
    case Drop(p, i) => i < |c.bufs| && p in c.uses[i].leaving && p in c.uses[i].refs && c.bufs[i].refcnt > 0
    case Pin(p, i) => Holds(c, p, i) && c.bufs[i].valid
    case Unpin(p, i) =>
      && Holds(c, p, i) && c.uses[i].pins > 0 && c.bufs[i].refcnt > 0 && c.bufs[i].valid
      && (c.uses[i].pins > 1 || Clean(c, i))
  }

  function Without(s: seq<nat>, x: nat): (r: seq<nat>) {
    if s == [] then [] else if s[0] == x then s[1..] else [s[0]] + Without(s[1..], x)
  }

  function Next(c: Cache, s: Step): (r: Cache)
    requires |c.uses| == |c.bufs| && Enabled(c, s)
  {
    var b := c.bufs[s.i];
    var u := c.uses[s.i];
    match s
    case Take(p, id, i) =>
      var nb := if Cached(c, id) then b.(refcnt := b.refcnt + 1)
                else b.(valid := false, id := id, refcnt := 1);
      c.(bufs := c.bufs[i := nb], uses := c.uses[i := u.(refs := u.refs + {p})])
    case Lock(p, i) => c.(bufs := c.bufs[i := b.(holder := Some(p))])
    case Load(p, i) => c.(bufs := c.bufs[i := b.(valid := true, data := Get(c.disk, b.id))])
    case Modify(p, i, id, d) => c.(bufs := c.bufs[i := b.(data := d)], logical := Put(c.logical, id, d))
    case Write(p, i) => c.(disk := Put(c.disk, b.id, b.data))
    case Unlock(p, i) =>
      c.(bufs := c.bufs[i := b.(holder := None)], uses := c.uses[i := u.(leaving := u.leaving + {p})])
    case Drop(p, i) =>
      c.(bufs := c.bufs[i := b.(refcnt := b.refcnt - 1)],
         uses := c.uses[i := u.(refs := u.refs - {p}, leaving := u.leaving - {p})],
         lru := if b.refcnt == 1 then [i] + Without(c.lru, i) else c.lru)
    case Pin(p, i) =>
      c.(bufs := c.bufs[i := b.(refcnt := b.refcnt + 1)], uses := c.uses[i := u.(pins := u.pins + 1)])
    case Unpin(p, i) =>
      c.(bufs := c.bufs[i := b.(refcnt := b.refcnt - 1)], uses := c.uses[i := u.(pins := u.pins - 1)])
  }

  // ---- the invariant

  ghost predicate Permutation(lru: seq<nat>, n: nat) {
    && |lru| == n
    && (forall k :: 0 <= k < n ==> lru[k] < n)
    && (forall j, k :: 0 <= j < k < n ==> lru[j] != lru[k])
    && (forall i: nat :: i < n ==> i in lru)
  }

  /** At most one buffer for each block of a real device; dev 0 marks buffers never used. */
  ghost predicate Unique(c: Cache) {
    forall i, j :: 0 <= i < j < |c.bufs| && c.bufs[i].id == c.bufs[j].id ==> c.bufs[i].id.0 == 0
  }

  ghost predicate CountedAt(b: Buf, u: Use) {
    && b.refcnt == |u.refs| + u.pins
    && u.leaving <= u.refs
    && (b.holder.Some? ==> b.holder.value in u.refs && b.holder.value !in u.leaving)
  }

  ghost predicate Counted(c: Cache) {
    && |c.uses| == |c.bufs|
    && forall i :: 0 <= i < |c.bufs| ==> CountedAt(c.bufs[i], c.uses[i])
  }

  ghost predicate SameBlocks(s: Store, t: Store) {
    forall id :: InStore(s, id) <==> InStore(t, id)
  }

  ghost predicate Known(c: Cache) {
    && SameBlocks(c.disk, c.logical)
    && 0 !in c.disk
    && (forall i :: 0 <= i < |c.bufs| && (c.bufs[i].refcnt > 0 || c.bufs[i].valid) ==> InStore(c.disk, c.bufs[i].id))
  }

  /** A valid buffer shows the logical contents of its block. */
  ghost predicate Coherent(c: Cache) {
    forall i :: 0 <= i < |c.bufs| && c.bufs[i].valid && InStore(c.logical, c.bufs[i].id) ==>
      c.bufs[i].data == Get(c.logical, c.bufs[i].id)
  }

  ghost predicate Protects(c: Cache, id: Id, i: int) {
    && 0 <= i < |c.bufs| == |c.uses|
    && c.bufs[i].id == id && c.bufs[i].valid && (c.bufs[i].holder.Some? || c.uses[i].pins > 0)
  }

  /** Where the disk is behind the logical disk, a locked or pinned buffer has the newer contents. */
  ghost predicate Protected(c: Cache) {
    forall id :: InStore(c.disk, id) && InStore(c.logical, id) && Get(c.disk, id) != Get(c.logical, id) ==>
      exists i :: Protects(c, id, i)
  }

  ghost predicate Inv(c: Cache) {
    && Permutation(c.lru, |c.bufs|) && Counted(c) && Known(c) && Unique(c) && Coherent(c) && Protected(c)
  }

  // ---- every step keeps it

  lemma {:induction false} WithoutPermutation(lru: seq<nat>, n: nat, i: nat)
    requires Permutation(lru, n) && i < n
    ensures Permutation([i] + Without(lru, i), n)
  {
    WithoutShape(lru, i);
    var r := [i] + Without(lru, i);
    forall k | 0 <= k < n ensures r[k] < n {
      assert r[k] in r;
    }
    forall j: nat | j < n ensures j in r {
      assert j in lru;
    }
  }

  lemma {:induction false} WithoutShape(s: seq<nat>, x: nat)
    requires NoRepeats(s) && x in s
    ensures |Without(s, x)| == |s| - 1
    ensures NoRepeats(Without(s, x)) && x !in Without(s, x)
    ensures forall y :: y in Without(s, x) <==> y in s && y != x
  {
    if s[0] == x {
      assert s == [x] + s[1..];
    } else {
      assert s == [s[0]] + s[1..];
      WithoutShape(s[1..], x);
      assert s[0] !in Without(s[1..], x);
    }
  }

  lemma {:induction false} StepPermutation(c: Cache, s: Step)
    requires Inv(c) && Enabled(c, s)
    ensures Permutation(Next(c, s).lru, |Next(c, s).bufs|)
  {
    if s.Drop? && c.bufs[s.i].refcnt == 1 {
      WithoutPermutation(c.lru, |c.bufs|, s.i);
    }
  }

  /** A step changes at most its own buffer and the book of its users. */
  lemma {:induction false} StepFrame(c: Cache, s: Step, j: nat)
    requires |c.uses| == |c.bufs| && Enabled(c, s) && j < |c.bufs|
    ensures var d := Next(c, s);
            && |d.bufs| == |c.bufs| == |d.uses| && s.i < |c.bufs|
            && (j != s.i ==> d.bufs[j] == c.bufs[j] && d.uses[j] == c.uses[j])
  {
    hide Cached, Victim, Without;
  }

  lemma {:induction false} VictimUnused(c: Cache, i: nat)
    ensures Victim(c, i) ==> i < |c.bufs| && c.bufs[i].refcnt == 0
  {
  }

  lemma {:induction false} StepCountedAt(c: Cache, s: Step)
    requires |c.uses| == |c.bufs| && Enabled(c, s) && s.i < |c.bufs| && CountedAt(c.bufs[s.i], c.uses[s.i])
    ensures var d := Next(c, s); |d.bufs| == |c.bufs| == |d.uses| && CountedAt(d.bufs[s.i], d.uses[s.i])
  {
    hide Without, Clean, InStore;
    if s.Take? {
      VictimUnused(c, s.i);
      assert c.uses[s.i].refs == {} || Cached(c, s.id);
    }
  }

  lemma {:induction false} StepCounted(c: Cache, s: Step)
    requires Inv(c) && Enabled(c, s)
    ensures Counted(Next(c, s))
  {
    hide Next, Enabled, Permutation, Known, Unique, Coherent, Protected, CountedAt;
    StepOwnBuffer(c, s);
    StepCountedAt(c, s);
    var d := Next(c, s);
    forall j: nat | j < |d.bufs| ensures CountedAt(d.bufs[j], d.uses[j]) {
      StepFrame(c, s, j);
    }
  }

  lemma {:induction false} StepOwnBuffer(c: Cache, s: Step)
    requires |c.uses| == |c.bufs| && Enabled(c, s)
    ensures s.i < |c.bufs|
  {
  }

  lemma {:induction false} StepKnown(c: Cache, s: Step)
    requires Inv(c) && Enabled(c, s)
    ensures Known(Next(c, s))
  {
    hide Permutation, Unique, Coherent, Protected;
  }

  lemma {:induction false} StepUnique(c: Cache, s: Step)
    requires Inv(c) && Enabled(c, s)
    ensures Unique(Next(c, s))
  {
    hide Permutation, Counted, Coherent, Protected, Known;
    if s.Take? && !Cached(c, s.id) {
      assert forall j :: 0 <= j < |c.bufs| ==> c.bufs[j].id != s.id;
    }
  }

  lemma {:induction false} StepCoherent(c: Cache, s: Step)
    requires Inv(c) && Enabled(c, s)
    ensures Coherent(Next(c, s))
  {
    hide Permutation, Without;
  }

  lemma {:induction false} StepProtected(c: Cache, s: Step)
    requires Inv(c) && Enabled(c, s)
    ensures Protected(Next(c, s))
  {
    hide Next, Enabled, Permutation, Known, Unique, Coherent, Protects, CountedAt;
    StepOwnBuffer(c, s);
    var d := Next(c, s);
    forall id | InStore(d.disk, id) && InStore(d.logical, id) && Get(d.disk, id) != Get(d.logical, id)
      ensures exists i :: Protects(d, id, i)
    {
      if s.Modify? && s.id == id {
        ModifyProtects(c, s);
      } else {
        StillBehind(c, s, id);
        var i :| Protects(c, id, i);
        StaysProtected(c, s, id, i);
      }
    }
  }

  lemma {:induction false} ModifyProtects(c: Cache, s: Step)
    requires |c.uses| == |c.bufs| && Enabled(c, s) && s.Modify?
    ensures Protects(Next(c, s), s.id, s.i)
  {
  }

  /** A block that is behind after the step was so before, unless the step changed it. */
  lemma {:induction false} StillBehind(c: Cache, s: Step, id: Id)
    requires Inv(c) && Enabled(c, s) && !(s.Modify? && s.id == id)
    requires var d := Next(c, s); InStore(d.disk, id) && InStore(d.logical, id) && Get(d.disk, id) != Get(d.logical, id)
    ensures InStore(c.disk, id) && InStore(c.logical, id) && Get(c.disk, id) != Get(c.logical, id)
  {
    hide Permutation, Unique, Counted, Without, Protected;
  }

  /** A buffer that protects a block goes on doing so until the block is written. */
  lemma {:induction false} StaysProtected(c: Cache, s: Step, id: Id, i: int)
    requires Inv(c) && Enabled(c, s) && Protects(c, id, i)
    requires var d := Next(c, s); InStore(d.disk, id) && InStore(d.logical, id) && Get(d.disk, id) != Get(d.logical, id)
    ensures Protects(Next(c, s), id, i)
  {
    hide Permutation, Known, Unique, Without, Protected;
    assert CountedAt(c.bufs[i], c.uses[i]);
  }

  lemma {:induction false} StepInv(c: Cache, s: Step)
    requires Inv(c) && Enabled(c, s)
    ensures Inv(Next(c, s))
  {
    StepPermutation(c, s);
    StepCounted(c, s);
    StepKnown(c, s);
    StepUnique(c, s);
    StepCoherent(c, s);
    StepProtected(c, s);
  }

  // ---- whole runs

  /** The cache after binit: nbuf buffers that belong to no device, most recently linked first. */
  function Fresh(nbuf: nat, disk: Store): (c: Cache) {
    Cache(seq(nbuf, _ => Buf(false, (0, 0), 0, ZERO_BLOCK, None)),
          seq(nbuf, i requires 0 <= i < nbuf => nbuf - 1 - i),
          seq(nbuf, _ => Use({}, {}, 0)), disk, disk)
  }

  lemma {:induction false} FreshInv(nbuf: nat, disk: Store)
    requires 0 !in disk
    ensures Inv(Fresh(nbuf, disk))
  {
    var c := Fresh(nbuf, disk);
    forall i: nat | i < nbuf ensures i in c.lru {
      assert c.lru[nbuf - 1 - i] == i;
    }
  }

  /** cs is a run of the machine through the steps ss. */
  ghost predicate Run(cs: seq<Cache>, ss: seq<Step>) {
    && |cs| == |ss| + 1
    && forall k :: 0 <= k < |ss| ==>
         |cs[k].uses| == |cs[k].bufs| && Enabled(cs[k], ss[k]) && cs[k + 1] == Next(cs[k], ss[k])
  }

  /** The simple disk: each block holds what was last stored into it. It knows nothing of buffers. */
  ghost function SimpleDisk(disk: Store, ss: seq<Step>): (r: Store)
    ensures forall id :: InStore(r, id) <==> InStore(disk, id)
  {
    if ss == [] then disk
    else
      var before := SimpleDisk(disk, ss[..|ss| - 1]);
      match ss[|ss| - 1]
      case Modify(_, _, id, b) => if InStore(before, id) then Put(before, id, b) else before
      case _ => before
  }

  lemma {:induction false} RunInv(nbuf: nat, disk: Store, cs: seq<Cache>, ss: seq<Step>)
    requires 0 !in disk && Run(cs, ss) && cs[0] == Fresh(nbuf, disk)
    ensures Inv(cs[|ss|])
    ensures cs[|ss|].logical == SimpleDisk(disk, ss)
  {
    if ss == [] {
      FreshInv(nbuf, disk);
    } else {
      var n := |ss| - 1;
      assert Run(cs[..n + 1], ss[..n]);
      RunInv(nbuf, disk, cs[..n + 1], ss[..n]);
      StepInv(cs[n], ss[n]);
    }
  }

  /** Refinement: in every run, whoever holds a valid buffer sees exactly the block of the simple disk. */
  lemma {:induction false} ReadsSimpleDisk(nbuf: nat, disk: Store, cs: seq<Cache>, ss: seq<Step>, k: nat, p: Pid,
                                           i: nat)
    requires 0 !in disk && Run(cs, ss) && cs[0] == Fresh(nbuf, disk) && k <= |ss|
    requires Holds(cs[k], p, i) && cs[k].bufs[i].valid
    ensures InStore(SimpleDisk(disk, ss[..k]), cs[k].bufs[i].id)
    ensures cs[k].bufs[i].data == Get(SimpleDisk(disk, ss[..k]), cs[k].bufs[i].id)
  {
    assert Run(cs[..k + 1], ss[..k]);
    RunInv(nbuf, disk, cs[..k + 1], ss[..k]);
  }

  lemma {:induction false} StepKeepsReference(c: Cache, s: Step, p: Pid, i: nat)
    requires Inv(c) && Enabled(c, s) && i < |c.bufs| && p in c.uses[i].refs && s != Drop(p, i)
    ensures var d := Next(c, s);
            i < |d.uses| == |d.bufs| && p in d.uses[i].refs && d.bufs[i].id == c.bufs[i].id
  {
    assert CountedAt(c.bufs[i], c.uses[i]);
  }

  /** From bget until its own brelse completes, a process's buffer keeps its identity: it is never recycled. */
  lemma {:induction false} NeverRecycled(cs: seq<Cache>, ss: seq<Step>, p: Pid, i: nat)
    requires Run(cs, ss) && Inv(cs[0])
    requires i < |cs[0].bufs| && p in cs[0].uses[i].refs
    requires forall m :: 0 <= m < |ss| ==> ss[m] != Drop(p, i)
    ensures var c := cs[|ss|]; Inv(c) && i < |c.bufs| && p in c.uses[i].refs && c.bufs[i].id == cs[0].bufs[i].id
  {
    if ss != [] {
      var n := |ss| - 1;
      assert Run(cs[..n + 1], ss[..n]);
      NeverRecycled(cs[..n + 1], ss[..n], p, i);
      StepKeepsReference(cs[n], ss[n], p, i);
      StepInv(cs[n], ss[n]);
    }
  }

  lemma {:induction false} StepKeepsLock(c: Cache, s: Step, p: Pid, i: nat)
    requires |c.uses| == |c.bufs| && Enabled(c, s) && Holds(c, p, i) && s != Unlock(p, i)
    requires c.bufs[i].refcnt > 0 && Unique(c)
    ensures Holds(Next(c, s), p, i)
    ensures s.p != p ==> var (b, d) := (c.bufs[i], Next(c, s).bufs[i]); d.valid == b.valid && d.data == b.data
  {
    hide Without, Unique;
  }

  /** Mutual exclusion: from acquiresleep until its own releasesleep a process has the buffer to itself. Nobody else
      locks it, loads it or changes its contents. */
  lemma {:induction false} HeldAlone(cs: seq<Cache>, ss: seq<Step>, p: Pid, i: nat)
    requires Run(cs, ss) && Inv(cs[0]) && Holds(cs[0], p, i)
    requires forall m :: 0 <= m < |ss| ==> ss[m] != Unlock(p, i)
    ensures Inv(cs[|ss|]) && Holds(cs[|ss|], p, i)
    ensures (forall m :: 0 <= m < |ss| ==> ss[m].p != p) ==>
              cs[|ss|].bufs[i].valid == cs[0].bufs[i].valid && cs[|ss|].bufs[i].data == cs[0].bufs[i].data
  {
    if ss != [] {
      var n := |ss| - 1;
      assert Run(cs[..n + 1], ss[..n]);
      HeldAlone(cs[..n + 1], ss[..n], p, i);
      assert CountedAt(cs[n].bufs[i], cs[n].uses[i]);
      HolderCounts(cs[n].uses[i].refs, p);
      StepKeepsLock(cs[n], ss[n], p, i);
      StepInv(cs[n], ss[n]);
    }
  }

  lemma {:induction false} HolderCounts(refs: set<Pid>, p: Pid)
    requires p in refs
    ensures |refs| > 0
  {
  }

  // ---- the order of recycling

  /** The step is a brelse by the buffer's last user. */
  predicate LastUser(c: Cache, s: Step) {
    s.Drop? && s.i < |c.bufs| && c.bufs[s.i].refcnt == 1
  }

  /** When buffer i was last given back by its last user, counted in steps from 1; 0 if it never was. */
  ghost function FreedAt(cs: seq<Cache>, ss: seq<Step>, i: nat): (t: nat)
    requires |cs| == |ss| + 1
    ensures t <= |ss|
  {
    if ss == [] then 0
    else
      var n := |ss| - 1;
      if LastUser(cs[n], ss[n]) && ss[n].i == i then n + 1
      else FreedAt(cs[..n + 1], ss[..n], i)
  }

  /** Buffer i is to be recycled after buffer j: it was given back later, or neither ever was and binit linked it
      later. */
  ghost predicate Newer(cs: seq<Cache>, ss: seq<Step>, i: nat, j: nat)
    requires |cs| == |ss| + 1
  {
    FreedAt(cs, ss, i) > FreedAt(cs, ss, j) || (FreedAt(cs, ss, i) == 0 == FreedAt(cs, ss, j) && i > j)
  }

  /** The list is in this order. */
  ghost predicate Recent(cs: seq<Cache>, ss: seq<Step>, lru: seq<nat>)
    requires |cs| == |ss| + 1
  {
    forall j, k :: 0 <= j < k < |lru| ==> Newer(cs, ss, lru[j], lru[k])
  }

  /** Taking one element out leaves the others in their order. */
  lemma {:induction false} WithoutOrder(s: seq<nat>, x: nat, j: nat, k: nat) returns (m: nat, n: nat)
    requires j < k < |Without(s, x)|
    ensures j <= m < n < |s| && s[m] == Without(s, x)[j] && s[n] == Without(s, x)[k]
  {
    if s[0] == x {
      m, n := j + 1, k + 1;
    } else if j > 0 {
      m, n := WithoutOrder(s[1..], x, j - 1, k - 1);
      m, n := m + 1, n + 1;
    } else {
      m := 0;
      n := WithoutPlace(s[1..], x, k - 1);
      n := n + 1;
    }
  }

  lemma {:induction false} WithoutPlace(s: seq<nat>, x: nat, k: nat) returns (n: nat)
    requires k < |Without(s, x)|
    ensures n < |s| && s[n] == Without(s, x)[k]
  {
    if s[0] == x {
      n := k + 1;
    } else if k == 0 {
      n := 0;
    } else {
      n := WithoutPlace(s[1..], x, k - 1);
      n := n + 1;
    }
  }

  /** In every run the list has the buffers in the order in which their last users gave them back, latest first, and
      behind them those never used, as binit linked them. */
  lemma {:induction false} MostRecentFirst(nbuf: nat, disk: Store, cs: seq<Cache>, ss: seq<Step>)
    requires 0 !in disk && Run(cs, ss) && cs[0] == Fresh(nbuf, disk)
    ensures Recent(cs, ss, cs[|ss|].lru)
  {
    hide Inv, SameBlocks, Enabled;
    if ss != [] {
      var n := |ss| - 1;
      assert Run(cs[..n + 1], ss[..n]);
      MostRecentFirst(nbuf, disk, cs[..n + 1], ss[..n]);
      RunInv(nbuf, disk, cs[..n + 1], ss[..n]);
      StepOrder(cs, ss);
    }
  }

  /** A step that is no brelse by a last user leaves all times alone, and such a brelse all but its own. */
  lemma {:induction false} OrderKept(cs: seq<Cache>, ss: seq<Step>, i: nat, j: nat)
    requires |cs| == |ss| + 1 && ss != [] && Newer(cs[..|ss|], ss[..|ss| - 1], i, j)
    requires LastUser(cs[|ss| - 1], ss[|ss| - 1]) ==> i != ss[|ss| - 1].i && j != ss[|ss| - 1].i
    ensures Newer(cs, ss, i, j)
  {
  }

  lemma {:induction false} FreedLast(cs: seq<Cache>, ss: seq<Step>, j: nat)
    requires |cs| == |ss| + 1 && ss != [] && LastUser(cs[|ss| - 1], ss[|ss| - 1]) && j != ss[|ss| - 1].i
    ensures Newer(cs, ss, ss[|ss| - 1].i, j)
  {
  }

  lemma {:induction false} StepOrder(cs: seq<Cache>, ss: seq<Step>)
    requires |cs| == |ss| + 1 && Run(cs, ss) && ss != [] && Permutation(cs[|ss| - 1].lru, |cs[|ss| - 1].bufs|)
    requires Recent(cs[..|ss|], ss[..|ss| - 1], cs[|ss| - 1].lru)
    ensures Recent(cs, ss, cs[|ss|].lru)
  {
    hide Enabled, Run, Newer, Without, LastUser;
    var n := |ss| - 1;
    var (c, s) := (cs[n], ss[n]);
    StepList(cs, ss);
    var lru := cs[n + 1].lru;
    if LastUser(c, s) {
      WithoutShape(c.lru, s.i);
      var rest := Without(c.lru, s.i);
      forall j, k | 0 <= j < k < |lru| ensures Newer(cs, ss, lru[j], lru[k]) {
        assert lru[k] == rest[k - 1] && lru[k] in rest;
        if j == 0 {
          FreedLast(cs, ss, lru[k]);
        } else {
          var a, b := WithoutOrder(c.lru, s.i, j - 1, k - 1);
          assert lru[j] == rest[j - 1] && lru[j] in rest;
          OrderKept(cs, ss, lru[j], lru[k]);
        }
      }
    } else {
      forall j, k | 0 <= j < k < |lru| ensures Newer(cs, ss, lru[j], lru[k]) {
        OrderKept(cs, ss, lru[j], lru[k]);
      }
    }
  }

  /** Such a brelse puts its buffer in front; no other step touches the list. */
  lemma {:induction false} StepList(cs: seq<Cache>, ss: seq<Step>)
    requires Run(cs, ss) && ss != [] && Permutation(cs[|ss| - 1].lru, |cs[|ss| - 1].bufs|)
    ensures var (c, d, s) := (cs[|ss| - 1], cs[|ss|], ss[|ss| - 1]);
            && s.i < |c.bufs| && s.i in c.lru
            && d.lru == if LastUser(c, s) then [s.i] + Without(c.lru, s.i) else c.lru
  {
    hide Without;
    var n := |ss| - 1;
    assert Enabled(cs[n], ss[n]) && cs[n + 1] == Next(cs[n], ss[n]);
  }

  /** bget recycles the unreferenced buffer that was given back longest ago. */
  lemma {:induction false} RecyclesOldest(nbuf: nat, disk: Store, cs: seq<Cache>, ss: seq<Step>, i: nat, j: nat)
    requires 0 !in disk && Run(cs, ss) && cs[0] == Fresh(nbuf, disk) && Victim(cs[|ss|], i)
    requires j < |cs[|ss|].bufs| && cs[|ss|].bufs[j].refcnt == 0 && j != i
    ensures Newer(cs, ss, j, i)
  {
    var c := cs[|ss|];
    RunInv(nbuf, disk, cs, ss);
    MostRecentFirst(nbuf, disk, cs, ss);
    assert j in c.lru;
    var m :| 0 <= m < |c.lru| && c.lru[m] == j;
  }

  ghost predicate Quiet(c: Cache) {
    |c.uses| == |c.bufs| && forall i :: 0 <= i < |c.bufs| ==> c.bufs[i].holder == None && c.uses[i].pins == 0
  }

  /** When the cache has quiesced (nothing locked, nothing pinned) the disk itself is the simple disk. */
  lemma {:induction false} QuiescentDisk(nbuf: nat, disk: Store, cs: seq<Cache>, ss: seq<Step>, id: Id)
    requires 0 !in disk && Run(cs, ss) && cs[0] == Fresh(nbuf, disk) && InStore(disk, id)
    requires Quiet(cs[|ss|])
    ensures InStore(cs[|ss|].disk, id) && Get(cs[|ss|].disk, id) == Get(SimpleDisk(disk, ss), id)
  {
    RunInv(nbuf, disk, cs, ss);
  }
}
