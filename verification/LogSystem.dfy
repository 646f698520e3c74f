/** The logging protocol of kernel/log.c as a state machine: operations of any number of processes interleave
    with each other, with begin_op's check of one disk after another, with the block writes of a group commit,
    and with crashes, also inside recovery.

    Transaction boundaries are shared by all disks, while each disk has its own log.
 */
module LogSystem {
  import opened Blocks
  import opened CrashSpec

  /** One log_write: which operation stored what into which block of which disk. */
  datatype Entry = Entry(op: nat, dev: nat, block: nat, data: Block)

  /** An open operation; wrote and added give, per disk, the distinct blocks it has written, and those of
      them that were not yet in the log at the time. */
  datatype Op = Op(id: nat, wrote: seq<set<nat>>, added: seq<set<nat>>)

  /** begin_op between acquiring logstate.lock and releasing it: the disks below i have been checked. */
  datatype Check = Free | Checking(i: nat, blocked: bool)

  /** commit_all: disk c had contents from when its commit began, and k of its block writes are done. */
  datatype Commit = Idle | Committing(c: nat, k: nat, from: Disk)

  datatype State =
    | Up(disks: seq<Disk>, lh: seq<seq<nat>>, view: seq<Disk>, ops: seq<Op>, check: Check, commit: Commit,
         nextOp: nat, init: seq<Disk>, hist: seq<Entry>, base: nat, epoch: nat)
    | Down(boot: seq<Disk>, ks: seq<nat>, target: seq<Disk>)
    | Panicked

  datatype Config = Config(areas: seq<LogArea>, maxOp: nat)

  datatype Step =
    | BeginLock
    | BeginCheck
    | BeginDone
    | LogWrite(x: nat, dev: nat, block: nat, data: Block)
    | EndOp(x: nat)
    | CommitWrite
    | CommitNext
    | CommitDone
    | Crash
    | RecoverWrite(dev: nat)
    | BootDone

  /** The home contents of disk dev after the operations in hist, by the meaning of the operations alone. */
  function Replay(h: Disk, hist: seq<Entry>, dev: nat): (r: Disk) {
    if hist == [] then h
    else
      var before := Replay(h, hist[..|hist| - 1], dev);
      var e := hist[|hist| - 1];
      if e.dev == dev && e.block in before then before[e.block := e.data] else before
  }

  function Stable(s: State, i: nat): (r: Disk)
    requires s.Up? && i < |s.init| && s.base <= |s.hist|
  {
    Replay(s.init[i], s.hist[..s.base], i)
  }

  function Without(ops: seq<Op>, x: nat): (r: seq<Op>)
    requires x < |ops|
  {
    ops[..x] + ops[x + 1..]
  }

  // ---- steps

  ghost predicate Enabled(cf: Config, s: State, t: Step) {
    match s
    case Panicked => false
    case Down(boot, ks, target) => (
      match t
      case RecoverWrite(i) => Recovering(cf, s) && i < |ks| && ks[i] <= |cf.areas[i].decode(boot[i][cf.areas[i].start])|
      case Crash => Recovering(cf, s)
      case BootDone =>
        && Recovering(cf, s)
        && forall i :: 0 <= i < |ks| ==> ks[i] == |cf.areas[i].decode(boot[i][cf.areas[i].start])| + 1
      case _ => false)
    case Up(disks, lh, view, ops, check, commit, nextOp, init, hist, base, epoch) => (
      match t
      case BeginLock => check == Free
      case BeginCheck => check.Checking? && !check.blocked && check.i < |lh| == |cf.areas|
      case BeginDone => check.Checking? && (check.blocked || check.i == |lh|)
      case LogWrite(x, dev, block, data) =>
        && x < |ops| && dev < |lh| == |view| == |cf.areas|
        && |ops[x].wrote| == |ops[x].added| == |lh| && block in view[dev] && block < cf.areas[dev].limit
        && (block in ops[x].wrote[dev] || |ops[x].wrote[dev]| < cf.maxOp)
      case EndOp(x) => check == Free && x < |ops| && |disks| > 0
      case CommitWrite =>
        && commit.Committing? && commit.c < |lh| == |disks| == |view| == |cf.areas|
        && lh[commit.c] != [] && commit.k < CommitWrites(lh[commit.c])
        && CanCommitNow(commit.from, cf.areas[commit.c], lh[commit.c], view[commit.c])
      case CommitNext =>
        && commit.Committing? && commit.c < |lh| == |disks|
        && commit.k == if lh[commit.c] == [] then 0 else CommitWrites(lh[commit.c])
      case CommitDone => commit.Committing? && commit.c == |lh| && check == Free
      case Crash => true
      case _ => false)
  }

  ghost predicate CanCommitNow(d: Disk, g: LogArea, lh: seq<nat>, newer: Disk) {
    ValidArea(g) && HasLog(d, g) && ValidList(lh, d, g) && forall i :: 0 <= i < |lh| ==> lh[i] in newer
  }

  ghost predicate Recovering(cf: Config, s: State) {
    && s.Down? && |s.boot| == |s.ks| == |cf.areas|
    && forall i :: 0 <= i < |s.boot| ==> ValidDisk(s.boot[i], cf.areas[i])
  }

  /** What is on the disks if the machine stops now. */
  ghost function OnDisk(cf: Config, s: State): (r: seq<Disk>)
    requires s.Up? || Recovering(cf, s)
  {
    if s.Up? then s.disks
    else seq(|s.boot|, i requires 0 <= i < |s.boot| => RecoverUpTo(s.boot[i], cf.areas[i], s.ks[i]))
  }

  ghost function Next(cf: Config, s: State, t: Step): (r: State)
    requires Enabled(cf, s, t)
  {
    match t
    case BeginLock => s.(check := Checking(0, s.commit.Committing?))
    case BeginCheck =>
      var full := |s.lh[s.check.i]| + (|s.ops| + 1) * cf.maxOp > cf.areas[s.check.i].cap;
      s.(check := Checking(s.check.i + 1, full))
    case BeginDone =>
      if s.check.blocked then s.(check := Free)
      else
        var none := seq(|s.lh|, _ => {});
        s.(check := Free, ops := s.ops + [Op(s.nextOp, none, none)], nextOp := s.nextOp + 1)
    case LogWrite(x, dev, block, data) =>
      if |s.lh[dev]| >= cf.areas[dev].cap then Panicked
      else
        var op := s.ops[x];
        var logged := block in s.lh[dev];
        var v: Disk := s.view[dev][block := data];
        var op' := Op(op.id, op.wrote[dev := op.wrote[dev] + {block}],
                      if logged then op.added else op.added[dev := op.added[dev] + {block}]);
        s.(ops := s.ops[x := op'],
           lh := if logged then s.lh else s.lh[dev := s.lh[dev] + [block]],
           view := s.view[dev := v],
           hist := s.hist + [Entry(op.id, dev, block, data)])
    case EndOp(x) =>
      if s.commit.Committing? then Panicked
      else
        var rest := Without(s.ops, x);
        s.(ops := rest, commit := if rest == [] then Committing(0, 0, s.disks[0]) else Idle)
    case CommitWrite =>
      var c := s.commit.c;
      s.(disks := s.disks[c := CommitUpTo(s.commit.from, cf.areas[c], s.lh[c], s.view[c], s.commit.k + 1)],
         commit := s.commit.(k := s.commit.k + 1))
    case CommitNext =>
      var c := s.commit.c;
      s.(lh := s.lh[c := []],
         commit := Committing(c + 1, 0, if c + 1 < |s.disks| then s.disks[c + 1] else s.disks[c]))
    case CommitDone => s.(commit := Idle, base := |s.hist|, epoch := s.nextOp)
    case Crash =>
      var ds := OnDisk(cf, s);
      Down(ds, seq(|ds|, _ => 0), if s.Down? then s.target else Recovered(cf, ds))
    case RecoverWrite(i) => s.(ks := s.ks[i := s.ks[i] + 1])
    case BootDone => Booted(cf, OnDisk(cf, s))
  }

  /** What recovery would make of the disks ds. */
  ghost function Recovered(cf: Config, ds: seq<Disk>): (r: seq<Disk>) {
    seq(|ds|, i requires 0 <= i < |ds| =>
      if i < |cf.areas| && ValidDisk(ds[i], cf.areas[i]) then Home(Recover(ds[i], cf.areas[i]), cf.areas[i]) else map[])
  }

  ghost function Homes(cf: Config, ds: seq<Disk>): (r: seq<Disk>)
    requires |ds| == |cf.areas|
  {
    seq(|ds|, i requires 0 <= i < |ds| => Home(ds[i], cf.areas[i]))
  }

  /** The state fsinit leaves once every log has been recovered. */
  ghost function Booted(cf: Config, ds: seq<Disk>): (r: State)
    requires |ds| == |cf.areas|
  {
    var none: seq<seq<nat>> := seq(|ds|, _ => []);
    Up(ds, none, Homes(cf, ds), [], Free, Idle, 0, Homes(cf, ds), [], 0, 0)
  }

  // ---- the invariant

  ghost predicate Sized(cf: Config, s: State) {
    s.Up? ==>
      && |cf.areas| == |s.disks| == |s.lh| == |s.view| == |s.init| > 0
      && s.base <= |s.hist|
      && (s.commit.Committing? ==> s.commit.c <= |s.lh|)
  }

  /** Disk d holds the home contents h and an empty log. */
  ghost predicate Holds(d: Disk, g: LogArea, h: Disk) {
    ValidDisk(d, g) && g.decode(d[g.start]) == [] && Home(d, g) == h
  }

  /** Every block changed since the last commit is in the in-memory log. */
  ghost predicate Tracked(stable: Disk, view: Disk, lh: seq<nat>) {
    stable.Keys == view.Keys && forall b :: b in view && b !in lh ==> stable[b] == view[b]
  }

  /** lh can be committed: it fits, has no repeats and names home blocks. */
  ghost predicate Listed(lh: seq<nat>, g: LogArea, view: Disk) {
    && |lh| <= g.cap
    && (forall i :: 0 <= i < |lh| ==> lh[i] in view && lh[i] < g.limit)
    && (forall i, j :: 0 <= i < j < |lh| ==> lh[i] != lh[j])
  }

  /** Has the commit in progress already passed the commit point of disk i? */
  predicate Passed(s: State, i: nat)
    requires s.Up? && i < |s.lh|
  {
    s.commit.Committing? && (i < s.commit.c || (i == s.commit.c && s.commit.k > |s.lh[i]|))
  }

  ghost predicate DiskInv(cf: Config, s: State, i: nat)
    requires s.Up? && Sized(cf, s) && i < |s.lh|
  {
    var g := cf.areas[i];
    && s.view[i] == Replay(s.init[i], s.hist, i)
    && Listed(s.lh[i], g, s.view[i])
    && (forall b :: b in s.view[i] ==> !InLog(g, b))
    && if s.commit.Committing? && i < s.commit.c then s.lh[i] == [] && Holds(s.disks[i], g, s.view[i])
       else
         && Tracked(Stable(s, i), s.view[i], s.lh[i])
         && if s.commit.Committing? && i == s.commit.c then
              && Holds(s.commit.from, g, Stable(s, i))
              && CanCommitNow(s.commit.from, g, s.lh[i], s.view[i])
              && s.commit.k <= CommitWrites(s.lh[i])
              && (s.lh[i] == [] ==> s.commit.k == 0)
              && s.disks[i] == CommitUpTo(s.commit.from, g, s.lh[i], s.view[i], s.commit.k)
            else Holds(s.disks[i], g, Stable(s, i))
  }

  /** Commit happens only with no operation open; operations of different transactions do not mix. */
  ghost predicate OpsInv(s: State) {
    s.Up? ==>
      && (s.commit.Committing? ==> s.ops == [] && (s.check.Checking? ==> s.check.blocked))
      && s.base <= |s.hist|
      && s.epoch <= s.nextOp
      && (forall x :: 0 <= x < |s.ops| ==> s.epoch <= s.ops[x].id < s.nextOp)
      && (forall x, y :: 0 <= x < y < |s.ops| ==> s.ops[x].id != s.ops[y].id)
      && (forall j :: 0 <= j < s.base ==> s.hist[j].op < s.epoch)
      && (forall j :: s.base <= j < |s.hist| ==> s.epoch <= s.hist[j].op < s.nextOp)
  }

  ghost predicate DownInv(cf: Config, s: State) {
    s.Down? ==>
      && Recovering(cf, s) && |s.target| == |s.boot| > 0
      && forall i :: 0 <= i < |s.boot| ==> Home(Recover(s.boot[i], cf.areas[i]), cf.areas[i]) == s.target[i]
  }

  ghost predicate Inv(cf: Config, s: State) {
    && Sized(cf, s) && OpsInv(s) && DownInv(cf, s)
    && (s.Up? ==> forall i: nat :: i < |s.lh| ==> DiskInv(cf, s, i))
  }

  // ---- Replay

  lemma {:induction false} ReplayKeys(h: Disk, hist: seq<Entry>, dev: nat)
    ensures Replay(h, hist, dev).Keys == h.Keys
  {
    if hist != [] {
      ReplayKeys(h, hist[..|hist| - 1], dev);
    }
  }

  lemma {:induction false} ReplayNext(h: Disk, hist: seq<Entry>, e: Entry, dev: nat)
    ensures Replay(h, hist + [e], dev) ==
            if e.dev == dev && e.block in Replay(h, hist, dev) then Replay(h, hist, dev)[e.block := e.data]
            else Replay(h, hist, dev)
  {
    assert (hist + [e])[..|hist|] == hist;
  }

  // ---- each step keeps the state of each disk

  lemma {:induction false} LogWriteDisk(cf: Config, s: State, t: Step, i: nat)
    requires s.Up? && Inv(cf, s) && t.LogWrite? && Enabled(cf, s, t) && Next(cf, s, t).Up? && i < |s.lh|
    ensures DiskInv(cf, Next(cf, s, t), i)
  {
    hide Replay, ValidDisk, Home, CommitUpTo, DownInv, CanCommitNow;
    var r := Next(cf, s, t);
    assert DiskInv(cf, s, i);
    ReplayNext(s.init[i], s.hist, Entry(s.ops[t.x].id, t.dev, t.block, t.data), i);
    assert r.hist[..r.base] == s.hist[..s.base];
  }

  lemma {:induction false} CommitWriteDisk(cf: Config, s: State, i: nat)
    requires s.Up? && Inv(cf, s) && Enabled(cf, s, CommitWrite) && i < |s.lh|
    ensures DiskInv(cf, Next(cf, s, CommitWrite), i)
  {
    hide CommitUpTo, Replay, Listed, Tracked, Holds, ValidDisk, Home, CanCommitNow, OpsInv, DownInv, InLog;
    assert DiskInv(cf, s, i);
    CommitWriteShape(cf, s, i);
  }

  /** A write of commit changes the disk being committed. */
  lemma {:induction false} CommitWriteShape(cf: Config, s: State, i: nat)
    requires s.Up? && Sized(cf, s) && Enabled(cf, s, CommitWrite) && i < |s.lh|
    ensures var r := Next(cf, s, CommitWrite);
            && r == s.(disks := r.disks, commit := r.commit) && |r.disks| == |s.disks|
            && r.commit == s.commit.(k := s.commit.k + 1) && s.commit.k < CommitWrites(s.lh[s.commit.c])
               && s.lh[s.commit.c] != []
            && CanCommitNow(s.commit.from, cf.areas[s.commit.c], s.lh[s.commit.c], s.view[s.commit.c])
            && r.disks[i] == if i == s.commit.c
                             then CommitUpTo(s.commit.from, cf.areas[i], s.lh[i], s.view[i], s.commit.k + 1)
                               else s.disks[i]
  {
    hide CommitUpTo;
  }

  /** A finished commit leaves the logical contents on disk c. */
  lemma {:induction false} CommitNextDisk(cf: Config, s: State, i: nat)
    requires s.Up? && Inv(cf, s) && Enabled(cf, s, CommitNext) && i < |s.lh|
    ensures DiskInv(cf, Next(cf, s, CommitNext), i)
  {
    hide CommitUpTo;
    assert DiskInv(cf, s, i);
    var c := s.commit.c;
    if i == c {
      var g := cf.areas[c];
      if s.lh[c] == [] {
        NothingCommitted(s.commit.from, g, s.lh[c], s.view[c]);
        assert Stable(s, c) == s.view[c];
      } else {
        CommitFinished(s.commit.from, g, s.lh[c], s.view[c]);
        OverlayIsView(Stable(s, c), s.view[c], s.lh[c]);
      }
    } else if i == c + 1 {
      HoldsList(s.disks[i], cf.areas[i], s.lh[i], Stable(s, i), s.view[i]);
      NothingCommitted(s.disks[i], cf.areas[i], s.lh[i], s.view[i]);
    }
  }

  lemma {:induction false} NothingCommitted(d: Disk, g: LogArea, lh: seq<nat>, newer: Disk)
    requires CanCommitNow(d, g, lh, newer)
    ensures CommitUpTo(d, g, lh, newer, 0) == d
  {
  }

  lemma {:induction false} OverlayIsView(stable: Disk, view: Disk, lh: seq<nat>)
    requires Tracked(stable, view, lh) && forall i :: 0 <= i < |lh| ==> lh[i] in view
    ensures Overlay(stable, lh, view) == view
  {
  }

  lemma {:induction false} HoldsList(d: Disk, g: LogArea, lh: seq<nat>, stable: Disk, view: Disk)
    requires Holds(d, g, stable) && Tracked(stable, view, lh) && Listed(lh, g, view)
    ensures CanCommitNow(d, g, lh, view)
  {
    forall i | 0 <= i < |lh| ensures lh[i] in d && !InLog(g, lh[i]) {
      assert lh[i] in view.Keys;
      assert lh[i] in Home(d, g);
    }
  }

  lemma {:induction false} EndOpDisk(cf: Config, s: State, t: Step, i: nat)
    requires s.Up? && Inv(cf, s) && t.EndOp? && Enabled(cf, s, t) && Next(cf, s, t).Up? && i < |s.lh|
    ensures DiskInv(cf, Next(cf, s, t), i)
  {
    hide CommitUpTo;
    assert DiskInv(cf, s, i);
    if i == 0 {
      HoldsList(s.disks[i], cf.areas[i], s.lh[i], Stable(s, i), s.view[i]);
      NothingCommitted(s.disks[i], cf.areas[i], s.lh[i], s.view[i]);
    }
  }

  lemma {:induction false} CommitDoneDisk(cf: Config, s: State, i: nat)
    requires s.Up? && Inv(cf, s) && Enabled(cf, s, CommitDone) && i < |s.lh|
    ensures DiskInv(cf, Next(cf, s, CommitDone), i)
  {
    hide CommitUpTo;
    assert DiskInv(cf, s, i);
    assert s.hist[..|s.hist|] == s.hist;
  }

  lemma {:induction false} BeginDisk(cf: Config, s: State, t: Step, i: nat)
    requires s.Up? && Inv(cf, s) && (t.BeginLock? || t.BeginCheck? || t.BeginDone?) && Enabled(cf, s, t) && i < |s.lh|
    ensures DiskInv(cf, Next(cf, s, t), i)
  {
    hide CommitUpTo;
    assert DiskInv(cf, s, i);
  }

  /** Booting: the recovered disks hold their own home contents and an empty log. */
  lemma {:induction false} BootedInv(cf: Config, ds: seq<Disk>)
    requires |ds| == |cf.areas| > 0
    requires forall i :: 0 <= i < |ds| ==>
               ValidDisk(ds[i], cf.areas[i]) && cf.areas[i].decode(ds[i][cf.areas[i].start]) == []
    ensures Inv(cf, Booted(cf, ds))
  {
    var s := Booted(cf, ds);
    forall i: nat | i < |s.lh| ensures DiskInv(cf, s, i) {
      assert s.hist[..s.base] == [];
      assert Holds(ds[i], cf.areas[i], Home(ds[i], cf.areas[i]));
    }
  }

  lemma {:induction false} StepOps(cf: Config, s: State, t: Step)
    requires s.Up? && Inv(cf, s) && Enabled(cf, s, t) && Next(cf, s, t).Up?
    ensures OpsInv(Next(cf, s, t)) && Sized(cf, Next(cf, s, t))
  {
    hide Recover, RecoverUpTo, CommitUpTo;
  }

  lemma {:induction false} BootDoneInv(cf: Config, s: State)
    requires s.Down? && Inv(cf, s) && Enabled(cf, s, BootDone)
    ensures Inv(cf, Next(cf, s, BootDone)) && Next(cf, s, BootDone).Up?
    ensures Next(cf, s, BootDone).init == s.target
  {
    var ds := OnDisk(cf, s);
    forall i | 0 <= i < |ds|
      ensures ValidDisk(ds[i], cf.areas[i]) && cf.areas[i].decode(ds[i][cf.areas[i].start]) == []
      ensures Home(ds[i], cf.areas[i]) == s.target[i]
    {
      RecoverUpToValid(s.boot[i], cf.areas[i], s.ks[i]);
    }
    BootedInv(cf, ds);
  }

  /** A crash while running: what recovery will produce is fixed from now on. */
  lemma {:induction false} CrashUpInv(cf: Config, s: State)
    requires s.Up? && Inv(cf, s)
    ensures Inv(cf, Next(cf, s, Crash))
  {
    hide Recover, CommitUpTo;
    forall i | 0 <= i < |s.disks| ensures ValidDisk(s.disks[i], cf.areas[i]) {
      RecoveredDisk(cf, s, i, []);
    }
  }

  /** A crash during recovery changes nothing about what recovery will produce. */
  lemma {:induction false} CrashDownInv(cf: Config, s: State)
    requires s.Down? && Inv(cf, s)
    ensures Inv(cf, Next(cf, s, Crash))
  {
    hide Recover, RecoverUpTo;
    forall i | 0 <= i < |s.boot|
      ensures var d := RecoverUpTo(s.boot[i], cf.areas[i], s.ks[i]);
              ValidDisk(d, cf.areas[i]) && Home(Recover(d, cf.areas[i]), cf.areas[i]) == s.target[i]
    {
      RecoverAgain(s.boot[i], cf.areas[i], s.ks[i]);
    }
  }

  /** The prefix of the history that recovery of disk i would show. */
  function Cut(s: State, i: nat): (c: nat)
    requires s.Up? && i < |s.lh|
  {
    if Passed(s, i) then |s.hist| else s.base
  }

  /** Whatever moment the machine stops at, and however often recovery itself is interrupted (ks), disk i
      comes up with the contents after exactly the first Cut(s, i) log_writes. */
  lemma {:induction false} RecoveredDisk(cf: Config, s: State, i: nat, ks: seq<nat>)
    requires s.Up? && Inv(cf, s) && i < |s.lh|
    ensures ValidDisk(s.disks[i], cf.areas[i]) && s.base <= |s.hist|
    ensures Home(RecoverThrough(s.disks[i], cf.areas[i], ks), cf.areas[i]) ==
            Replay(s.init[i], s.hist[..Cut(s, i)], i)
  {
    hide Recover, CommitUpTo, RecoverThrough;
    assert DiskInv(cf, s, i);
    var g := cf.areas[i];
    assert s.hist[..|s.hist|] == s.hist;
    if s.commit.Committing? && i == s.commit.c {
      CommitAtomic(s.commit.from, g, s.lh[i], s.view[i], s.commit.k, ks);
      OverlayIsView(Stable(s, i), s.view[i], s.lh[i]);
    } else {
      HeldThrough(s.disks[i], g, Home(s.disks[i], g), ks);
    }
  }

  lemma {:induction false} HeldThrough(d: Disk, g: LogArea, h: Disk, ks: seq<nat>)
    requires Holds(d, g, h)
    ensures Home(RecoverThrough(d, g, ks), g) == h
  {
    hide RecoverThrough;
    CommitAtomic(d, g, [], map[], 0, ks);
    NothingCommitted(d, g, [], map[]);
  }

  // ---- log space

  /** What the open operations may still add to the log of disk i. */
  function Reserved(ops: seq<Op>, i: nat, maxOp: nat): (r: int)
    requires forall x :: 0 <= x < |ops| ==> i < |ops[x].added|
  {
    if ops == [] then 0
    else Reserved(ops[..|ops| - 1], i, maxOp) + maxOp - |ops[|ops| - 1].added[i]|
  }

  ghost predicate OpSpace(op: Op, i: nat, maxOp: nat, lh: seq<nat>)
    requires i < |op.wrote| == |op.added|
  {
    op.added[i] <= op.wrote[i] && |op.wrote[i]| <= maxOp && forall b :: b in op.wrote[i] ==> b in lh
  }

  ghost predicate OpsSized(s: State) {
    s.Up? ==> forall x :: 0 <= x < |s.ops| ==> |s.ops[x].wrote| == |s.ops[x].added| == |s.lh|
  }

  /** Log space is never promised twice: also while begin_op has checked only some of the disks. */
  ghost predicate Space(cf: Config, s: State, i: nat)
    requires s.Up? && OpsSized(s) && i < |s.lh| == |cf.areas|
  {
    && (forall x :: 0 <= x < |s.ops| ==> OpSpace(s.ops[x], i, cf.maxOp, s.lh[i]))
    && |s.lh[i]| + Reserved(s.ops, i, cf.maxOp) +
         (if s.check.Checking? && !s.check.blocked && i < s.check.i then cf.maxOp else 0) <= cf.areas[i].cap
  }

  ghost predicate SpaceInv(cf: Config, s: State) {
    s.Up? ==> OpsSized(s) && |s.lh| == |cf.areas| && forall i: nat :: i < |s.lh| ==> Space(cf, s, i)
  }

  ghost predicate AllOpSpace(ops: seq<Op>, i: nat, maxOp: nat, lh: seq<nat>) {
    forall x :: 0 <= x < |ops| ==> i < |ops[x].wrote| == |ops[x].added| && OpSpace(ops[x], i, maxOp, lh)
  }

  lemma {:induction false} SubsetSize(a: set<nat>, b: set<nat>)
    requires a <= b
    ensures |a| <= |b|
  {
    assert b == a + (b - a);
  }

  lemma {:induction false} ReservedBounds(ops: seq<Op>, i: nat, maxOp: nat, lh: seq<nat>)
    requires AllOpSpace(ops, i, maxOp, lh)
    ensures 0 <= Reserved(ops, i, maxOp) <= |ops| * maxOp
  {
    if ops != [] {
      var last := ops[|ops| - 1];
      ReservedBounds(ops[..|ops| - 1], i, maxOp, lh);
      SubsetSize(last.added[i], last.wrote[i]);
      assert |ops| * maxOp == (|ops| - 1) * maxOp + maxOp;
    }
  }

  /** Replacing or removing one operation changes the reservation by that operation's share. */
  lemma {:induction false} ReservedSplit(ops: seq<Op>, x: nat, i: nat, maxOp: nat)
    requires x < |ops| && forall y :: 0 <= y < |ops| ==> i < |ops[y].added|
    ensures Reserved(ops, i, maxOp) == Reserved(Without(ops, x), i, maxOp) + maxOp - |ops[x].added[i]|
  {
    var n := |ops| - 1;
    if x == n {
      assert Without(ops, x) == ops[..n];
    } else {
      ReservedSplit(ops[..n], x, i, maxOp);
      assert Without(ops, x)[..n - 1] == Without(ops[..n], x);
    }
  }

  lemma {:induction false} ReservedUpdate(ops: seq<Op>, x: nat, op: Op, i: nat, maxOp: nat)
    requires x < |ops| && i < |op.added| && forall y :: 0 <= y < |ops| ==> i < |ops[y].added|
    ensures Reserved(ops[x := op], i, maxOp) == Reserved(ops, i, maxOp) + |ops[x].added[i]| - |op.added[i]|
  {
    ReservedSplit(ops, x, i, maxOp);
    ReservedSplit(ops[x := op], x, i, maxOp);
    assert Without(ops[x := op], x) == Without(ops, x);
  }

  lemma {:induction false} LogWriteSpace(cf: Config, s: State, t: Step, i: nat)
    requires s.Up? && SpaceInv(cf, s) && t.LogWrite? && Enabled(cf, s, t) && Next(cf, s, t).Up? && i < |s.lh|
    ensures OpsSized(Next(cf, s, t)) && Space(cf, Next(cf, s, t), i)
  {
    hide Reserved;
    var r := Next(cf, s, t);
    assert Space(cf, s, i);
    assert OpSpace(s.ops[t.x], i, cf.maxOp, s.lh[i]);
    ReservedUpdate(s.ops, t.x, r.ops[t.x], i, cf.maxOp);
    forall x | 0 <= x < |r.ops| ensures OpSpace(r.ops[x], i, cf.maxOp, r.lh[i]) {
      assert OpSpace(s.ops[x], i, cf.maxOp, s.lh[i]);
    }
  }

  lemma {:induction false} BeginSpace(cf: Config, s: State, t: Step, i: nat)
    requires s.Up? && SpaceInv(cf, s) && (t.BeginCheck? || t.BeginDone?) && Enabled(cf, s, t) && i < |s.lh|
    ensures OpsSized(Next(cf, s, t)) && Space(cf, Next(cf, s, t), i)
  {
    var r := Next(cf, s, t);
    assert Space(cf, s, i);
    assert AllOpSpace(s.ops, i, cf.maxOp, s.lh[i]);
    ReservedBounds(s.ops, i, cf.maxOp, s.lh[i]);
    assert (|s.ops| + 1) * cf.maxOp == |s.ops| * cf.maxOp + cf.maxOp;
    if t.BeginDone? && !s.check.blocked {
      assert r.ops[..|r.ops| - 1] == s.ops;
      forall x | 0 <= x < |r.ops| ensures OpSpace(r.ops[x], i, cf.maxOp, r.lh[i]) {
        if x < |s.ops| {
          assert OpSpace(s.ops[x], i, cf.maxOp, s.lh[i]);
        }
      }
    }
  }

  lemma {:induction false} EndOpSpace(cf: Config, s: State, t: Step, i: nat)
    requires s.Up? && SpaceInv(cf, s) && t.EndOp? && Enabled(cf, s, t) && Next(cf, s, t).Up? && i < |s.lh|
    ensures OpsSized(Next(cf, s, t)) && Space(cf, Next(cf, s, t), i)
  {
    hide Reserved;
    assert Space(cf, s, i);
    assert OpSpace(s.ops[t.x], i, cf.maxOp, s.lh[i]);
    SubsetSize(s.ops[t.x].added[i], s.ops[t.x].wrote[i]);
    ReservedSplit(s.ops, t.x, i, cf.maxOp);
    forall x | 0 <= x < |Without(s.ops, t.x)| ensures OpSpace(Without(s.ops, t.x)[x], i, cf.maxOp, s.lh[i]) {
      assert OpSpace(s.ops[if x < t.x then x else x + 1], i, cf.maxOp, s.lh[i]);
    }
  }

  lemma {:induction false} CommitSpace(cf: Config, s: State, t: Step, i: nat)
    requires s.Up? && Inv(cf, s) && SpaceInv(cf, s) && Enabled(cf, s, t) && i < |s.lh|
    requires t.CommitWrite? || t.CommitNext? || t.CommitDone? || t.BeginLock?
    ensures OpsSized(Next(cf, s, t)) && Space(cf, Next(cf, s, t), i)
  {
    hide CommitUpTo, DiskInv;
    assert Space(cf, s, i);
  }

  lemma {:induction false} StepSpace(cf: Config, s: State, t: Step)
    requires Inv(cf, s) && SpaceInv(cf, s) && Enabled(cf, s, t)
    ensures SpaceInv(cf, Next(cf, s, t))
  {
    hide CommitUpTo, DiskInv, RecoverUpTo, Recover;
    var r := Next(cf, s, t);
    if r.Up? && s.Up? {
      forall i: nat | i < |s.lh| ensures OpsSized(r) && Space(cf, r, i) {
        if t.LogWrite? {
          LogWriteSpace(cf, s, t, i);
        } else if t.EndOp? {
          EndOpSpace(cf, s, t, i);
        } else if t.BeginCheck? || t.BeginDone? {
          BeginSpace(cf, s, t, i);
        } else {
          CommitSpace(cf, s, t, i);
        }
      }
    }
  }

  lemma {:induction false} StepDisks(cf: Config, s: State, t: Step, i: nat)
    requires s.Up? && Inv(cf, s) && t != Crash && Enabled(cf, s, t) && Next(cf, s, t).Up? && i < |s.lh|
    ensures Sized(cf, Next(cf, s, t)) && DiskInv(cf, Next(cf, s, t), i)
  {
    hide CommitUpTo, DiskInv, Next;
    StepOps(cf, s, t);
    match t {
      case LogWrite(_, _, _, _) => LogWriteDisk(cf, s, t, i);
      case EndOp(_) => EndOpDisk(cf, s, t, i);
      case CommitWrite => CommitWriteDisk(cf, s, i);
      case CommitNext => CommitNextDisk(cf, s, i);
      case CommitDone => CommitDoneDisk(cf, s, i);
      case _ => BeginDisk(cf, s, t, i);
    }
  }

  lemma {:induction false} StepInv(cf: Config, s: State, t: Step)
    requires Inv(cf, s) && Enabled(cf, s, t)
    ensures Inv(cf, Next(cf, s, t))
  {
    hide CommitUpTo, DiskInv, RecoverUpTo, Recover;
    var r := Next(cf, s, t);
    if s.Up? && r.Up? {
      StepOps(cf, s, t);
      forall i: nat | i < |s.lh| ensures DiskInv(cf, r, i) {
        StepDisks(cf, s, t, i);
      }
    } else if t == Crash {
      if s.Up? {
        CrashUpInv(cf, s);
      } else {
        CrashDownInv(cf, s);
      }
    } else if t == BootDone {
      BootDoneInv(cf, s);
    }
  }

  // ---- whole runs

  ghost predicate Run(cf: Config, ss: seq<State>, ts: seq<Step>) {
    && |ss| == |ts| + 1
    && forall k :: 0 <= k < |ts| ==> Enabled(cf, ss[k], ts[k]) && ss[k + 1] == Next(cf, ss[k], ts[k])
  }

  /** Disks made by mkfs: valid, with an empty log that can take at least nothing. */
  ghost predicate Formatted(cf: Config, ds: seq<Disk>) {
    && |ds| == |cf.areas| > 0
    && forall i :: 0 <= i < |ds| ==> ValidDisk(ds[i], cf.areas[i]) && cf.areas[i].decode(ds[i][cf.areas[i].start]) == []
  }

  ghost predicate From(cf: Config, ss: seq<State>, ts: seq<Step>, ds: seq<Disk>) {
    Run(cf, ss, ts) && Formatted(cf, ds) && ss[0] == Booted(cf, ds)
  }

  lemma {:induction false} RunInv(cf: Config, ss: seq<State>, ts: seq<Step>, ds: seq<Disk>)
    requires From(cf, ss, ts, ds)
    ensures Inv(cf, ss[|ts|]) && SpaceInv(cf, ss[|ts|])
  {
    hide Inv, SpaceInv, Next;
    if ts == [] {
      BootedInv(cf, ds);
      BootedSpace(cf, ds);
    } else {
      var n := |ts| - 1;
      assert From(cf, ss[..n + 1], ts[..n], ds);
      RunInv(cf, ss[..n + 1], ts[..n], ds);
      StepInv(cf, ss[n], ts[n]);
      StepSpace(cf, ss[n], ts[n]);
    }
  }

  lemma {:induction false} BootedSpace(cf: Config, ds: seq<Disk>)
    requires |ds| == |cf.areas|
    ensures SpaceInv(cf, Booted(cf, ds))
  {
  }

  /** The first c log_writes are those of operations that have ended, and all of theirs. */
  ghost predicate WholeOps(s: State, c: nat) {
    && s.Up? && c <= |s.hist|
    && (forall j, x :: 0 <= j < c && 0 <= x < |s.ops| ==> s.hist[j].op != s.ops[x].id)
    && (forall j, m :: 0 <= j < c <= m < |s.hist| ==> s.hist[j].op != s.hist[m].op)
  }

  /** Group commit, over every run and every interleaving: stop the machine at any point, interrupt recovery
      any number of times, and disk i shows the log_writes of a set of complete operations, in order, and
      nothing of an operation still open. */
  lemma {:induction false} CrashShowsWholeOps(cf: Config, ss: seq<State>, ts: seq<Step>, ds: seq<Disk>, i: nat,
                                            ks: seq<nat>)
    requires From(cf, ss, ts, ds) && ss[|ts|].Up? && i < |ss[|ts|].lh|
    ensures var s := ss[|ts|];
            && Sized(cf, s) && ValidDisk(s.disks[i], cf.areas[i])
            && WholeOps(s, Cut(s, i))
            && Home(RecoverThrough(s.disks[i], cf.areas[i], ks), cf.areas[i]) ==
               Replay(s.init[i], s.hist[..Cut(s, i)], i)
  {
    hide RecoverThrough, DiskInv;
    RunInv(cf, ss, ts, ds);
    RecoveredDisk(cf, ss[|ts|], i, ks);
  }

  /** The order of commit_all: a disk shows its new contents only if every earlier disk does. */
  lemma {:induction false} EarlierDisksFirst(cf: Config, ss: seq<State>, ts: seq<Step>, ds: seq<Disk>, i: nat, j: nat)
    requires From(cf, ss, ts, ds) && ss[|ts|].Up? && i < j < |ss[|ts|].lh|
    ensures Cut(ss[|ts|], j) <= Cut(ss[|ts|], i) <= |ss[|ts|].hist|
    ensures Passed(ss[|ts|], j) ==> Passed(ss[|ts|], i)
  {
    RunInv(cf, ss, ts, ds);
  }

  /** commit_all runs only with no operation open, and begin_op lets nobody in until it is done. */
  lemma {:induction false} CommitRunsAlone(cf: Config, ss: seq<State>, ts: seq<Step>, ds: seq<Disk>, t: Step)
    requires From(cf, ss, ts, ds) && ss[|ts|].Up? && ss[|ts|].commit.Committing? && Enabled(cf, ss[|ts|], t)
    ensures ss[|ts|].ops == []
    ensures var s, r := ss[|ts|], Next(cf, ss[|ts|], t);
            r.Up? ==> r.ops == [] && r.hist == s.hist && r.view == s.view
  {
    hide DiskInv, CommitUpTo;
    RunInv(cf, ss, ts, ds);
  }

  /** end_op never finds a commit in progress. */
  lemma {:induction false} EndOpNeverPanics(cf: Config, ss: seq<State>, ts: seq<Step>, ds: seq<Disk>, x: nat)
    requires From(cf, ss, ts, ds) && Enabled(cf, ss[|ts|], EndOp(x))
    ensures Next(cf, ss[|ts|], EndOp(x)).Up?
  {
    hide DiskInv, CommitUpTo;
    RunInv(cf, ss, ts, ds);
  }

  /** Reservation: an operation that stays within MAXOPBLOCKS never finds the log full when it writes a block
      it has not written before. */
  lemma {:induction false} WithinBudgetNeverFull(cf: Config, ss: seq<State>, ts: seq<Step>, ds: seq<Disk>, t: Step)
    requires From(cf, ss, ts, ds) && t.LogWrite? && Enabled(cf, ss[|ts|], t)
    requires t.block !in ss[|ts|].ops[t.x].wrote[t.dev]
    ensures Next(cf, ss[|ts|], t).Up?
  {
    hide DiskInv, CommitUpTo, Inv;
    RunInv(cf, ss, ts, ds);
    var s := ss[|ts|];
    var op := s.ops[t.x];
    assert Space(cf, s, t.dev);
    assert OpSpace(op, t.dev, cf.maxOp, s.lh[t.dev]);
    SubsetSize(op.added[t.dev], op.wrote[t.dev]);
    ReservedSplit(s.ops, t.x, t.dev, cf.maxOp);
    assert AllOpSpace(Without(s.ops, t.x), t.dev, cf.maxOp, s.lh[t.dev]);
    ReservedBounds(Without(s.ops, t.x), t.dev, cf.maxOp, s.lh[t.dev]);
  }

  lemma {:induction false} PrefixInv(cf: Config, ss: seq<State>, ts: seq<Step>, ds: seq<Disk>, n: nat)
    requires From(cf, ss, ts, ds) && n <= |ts|
    ensures Inv(cf, ss[n])
  {
    assert From(cf, ss[..n + 1], ts[..n], ds);
    RunInv(cf, ss[..n + 1], ts[..n], ds);
  }

  /** What a crash leaves for recovery to produce. */
  lemma {:induction false} CrashTarget(cf: Config, s: State, i: nat)
    requires s.Up? && Inv(cf, s) && i < |s.lh|
    ensures WholeOps(s, Cut(s, i))
    ensures i < |Next(cf, s, Crash).target|
    ensures Next(cf, s, Crash).target[i] == Replay(s.init[i], s.hist[..Cut(s, i)], i)
  {
    hide DiskInv, CommitUpTo, Recover;
    RecoveredDisk(cf, s, i, []);
    assert RecoverThrough(s.disks[i], cf.areas[i], []) == Recover(s.disks[i], cf.areas[i]);
  }

  /** A reboot, however many crashes it takes, starts from the contents after a prefix of whole operations. */
  lemma {:induction false} RebootShowsWholeOps(cf: Config, ss: seq<State>, ts: seq<Step>, ds: seq<Disk>, a: nat, i: nat)
    requires From(cf, ss, ts, ds) && a < |ts| - 1 && ss[a].Up? && ts[a] == Crash && i < |ss[a].lh|
    requires forall k :: a < k < |ts| ==> ss[k].Down?
    requires ts[|ts| - 1] == BootDone
    ensures Sized(cf, ss[a]) && WholeOps(ss[a], Cut(ss[a], i))
    ensures ss[|ts|].Up? && i < |ss[|ts|].init|
    ensures ss[|ts|].init[i] == Replay(ss[a].init[i], ss[a].hist[..Cut(ss[a], i)], i)
  {
    hide DiskInv, CommitUpTo, Next, Replay, OpsInv, DownInv;
    var n := |ts| - 1;
    PrefixInv(cf, ss, ts, ds, a);
    CrashTarget(cf, ss[a], i);
    TargetKept(cf, ss, ts, a + 1, n);
    PrefixInv(cf, ss, ts, ds, n);
    BootDoneInv(cf, ss[n]);
  }

  lemma {:induction false} TargetKept(cf: Config, ss: seq<State>, ts: seq<Step>, a: nat, b: nat)
    requires Run(cf, ss, ts) && a <= b <= |ts| && forall k :: a <= k <= b ==> ss[k].Down?
    ensures ss[b].target == ss[a].target
  {
    hide RecoverUpTo;
    if a < b {
      TargetKept(cf, ss, ts, a, b - 1);
      assert ss[b - 1 + 1] == Next(cf, ss[b - 1], ts[b - 1]);
    }
  }

  // ---- durability

  /** With no operation open and no commit under way, everything logged has been committed. */
  ghost predicate Settled(s: State) {
    s.Up? && s.ops == [] && s.commit == Idle ==> s.base == |s.hist|
  }

  lemma {:induction false} StepSettled(cf: Config, s: State, t: Step)
    requires Inv(cf, s) && Settled(s) && Enabled(cf, s, t)
    ensures Settled(Next(cf, s, t))
  {
    hide DiskInv, CommitUpTo, RecoverUpTo, Recover;
  }

  lemma {:induction false} RunSettled(cf: Config, ss: seq<State>, ts: seq<Step>, ds: seq<Disk>)
    requires From(cf, ss, ts, ds)
    ensures Settled(ss[|ts|])
  {
    hide Inv, SpaceInv, Next;
    if ts == [] {
      BootedSettled(cf, ds);
    } else {
      var n := |ts| - 1;
      assert From(cf, ss[..n + 1], ts[..n], ds);
      RunSettled(cf, ss[..n + 1], ts[..n], ds);
      PrefixInv(cf, ss, ts, ds, n);
      StepSettled(cf, ss[n], ts[n]);
    }
  }

  lemma {:induction false} BootedSettled(cf: Config, ds: seq<Disk>)
    requires |ds| == |cf.areas|
    ensures Settled(Booted(cf, ds))
  {
  }

  /** Durability, over every run: when the last end_op has returned, a crash at any later moment before the next
      begin_op, and any number of crashes of recovery, show every log_write of every operation on every disk. */
  lemma {:induction false} EndedOpsSurvive(cf: Config, ss: seq<State>, ts: seq<Step>, ds: seq<Disk>, i: nat,
                                           ks: seq<nat>)
    requires From(cf, ss, ts, ds) && ss[|ts|].Up? && ss[|ts|].ops == [] && ss[|ts|].commit == Idle
    requires i < |ss[|ts|].lh|
    ensures var s := ss[|ts|];
            && Sized(cf, s) && ValidDisk(s.disks[i], cf.areas[i])
            && Home(RecoverThrough(s.disks[i], cf.areas[i], ks), cf.areas[i]) == Replay(s.init[i], s.hist, i)
            && Replay(s.init[i], s.hist, i) == s.view[i]
  {
    hide RecoverThrough, Replay;
    var s := ss[|ts|];
    RunInv(cf, ss, ts, ds);
    RunSettled(cf, ss, ts, ds);
    assert DiskInv(cf, s, i);
    RecoveredDisk(cf, s, i, ks);
    assert s.hist[..|s.hist|] == s.hist;
  }

  /** The block writes that commit_all still has to make on the disks from c on, and one step more for each disk. */
  function WorkFrom(lh: seq<seq<nat>>, c: nat): (n: nat)
    requires c <= |lh|
    ensures c < |lh| ==> n >= 1 + if lh[c] == [] then 0 else CommitWrites(lh[c])
    decreases |lh| - c
  {
    if c == |lh| then 1 else (if lh[c] == [] then 0 else CommitWrites(lh[c])) + 1 + WorkFrom(lh, c + 1)
  }

  lemma {:induction false} WorkLater(lh: seq<seq<nat>>, k: nat, c: nat)
    requires k < c <= |lh|
    ensures WorkFrom(lh[k := []], c) == WorkFrom(lh, c)
    decreases |lh| - c
  {
    if c < |lh| {
      WorkLater(lh, k, c + 1);
    }
  }

  /** The steps a commit in progress still takes. */
  function Work(s: State): (n: int)
    requires s.Up? && s.commit.Committing? && s.commit.c <= |s.lh|
  {
    WorkFrom(s.lh, s.commit.c) - if s.commit.c < |s.lh| then s.commit.k else 0
  }

  /** The step that commit_all takes next. */
  function CommitStep(s: State): (t: Step)
    requires s.Up? && s.commit.Committing?
  {
    if s.commit.c >= |s.lh| then CommitDone
    else if s.commit.k < (if s.lh[s.commit.c] == [] then 0 else CommitWrites(s.lh[s.commit.c])) then CommitWrite
    else CommitNext
  }

  /** A commit is never stuck, and each of its steps brings it nearer to its end. */
  lemma {:induction false} CommitGoesOn(cf: Config, s: State)
    requires Inv(cf, s) && s.Up? && s.commit.Committing? && s.check == Free
    ensures var t := CommitStep(s);
            && Enabled(cf, s, t) && Work(s) > 0
            && var r := Next(cf, s, t);
               && r.Up? && r.check == Free && r.hist == s.hist && r.view == s.view && r.init == s.init && r.ops == []
               && (if t.CommitDone? then r.commit == Idle && Work(s) == 1
                   else r.commit.Committing? && r.commit.c <= |r.lh| && Work(r) == Work(s) - 1)
  {
    hide CommitUpTo, CommitWrites, Replay, Holds, Home, ValidDisk, CanCommitNow;
    if s.commit.c < |s.lh| {
      assert DiskInv(cf, s, s.commit.c);
      WorkLater(s.lh, s.commit.c, s.commit.c + 1);
    }
  }

  lemma {:induction false} CommitAt(cf: Config, ss: seq<State>, ts: seq<Step>, ds: seq<Disk>)
    requires From(cf, ss, ts, ds) && ss[|ts|].Up? && ss[|ts|].commit.Committing?
    ensures Inv(cf, ss[|ts|]) && ss[|ts|].ops == [] && ss[|ts|].commit.c <= |ss[|ts|].lh|
  {
    RunInv(cf, ss, ts, ds);
  }

  /** A group commit that has begun comes to its end by its own steps alone, and then everything logged before is
      durable (EndedOpsSurvive). */
  lemma {:induction false} CommitEnds(cf: Config, ss0: seq<State>, ts0: seq<Step>, ds: seq<Disk>)
    returns (ss: seq<State>, ts: seq<Step>)
    requires From(cf, ss0, ts0, ds) && |ss0| == |ts0| + 1 && ss0[|ts0|].Up? && ss0[|ts0|].commit.Committing?
    requires ss0[|ts0|].check == Free
    ensures From(cf, ss, ts, ds) && |ss| == |ts| + 1 && ts0 <= ts
    ensures forall m :: |ts0| <= m < |ts| ==> ts[m].CommitWrite? || ts[m].CommitNext? || ts[m].CommitDone?
    ensures var (s, r) := (ss0[|ts0|], ss[|ts|]);
            && s.commit.c <= |s.lh| && |ts| == |ts0| + Work(s)
            && r.Up? && r.ops == [] && r.commit == Idle && r.hist == s.hist && r.view == s.view && r.init == s.init
  {
    hide Next, Enabled, Run, Formatted, Inv, SpaceInv, Work, From;
    ss, ts := ss0, ts0;
    CommitAt(cf, ss, ts, ds);
    while ss[|ts|].commit.Committing?
      invariant From(cf, ss, ts, ds) && |ss| == |ts| + 1 && ts0 <= ts && Inv(cf, ss[|ts|])
      invariant forall m :: |ts0| <= m < |ts| ==> ts[m].CommitWrite? || ts[m].CommitNext? || ts[m].CommitDone?
      invariant ss[|ts|].Up? && ss[|ts|].check == Free && ss[|ts|].ops == [] && ss[|ts|].hist == ss0[|ts0|].hist
      invariant ss[|ts|].view == ss0[|ts0|].view && ss[|ts|].init == ss0[|ts0|].init
      invariant ss[|ts|].commit.Committing? ==> ss[|ts|].commit.c <= |ss[|ts|].lh|
      invariant |ts| - |ts0| + (if ss[|ts|].commit.Committing? then Work(ss[|ts|]) else 0) == Work(ss0[|ts0|])
      decreases if ss[|ts|].commit.Committing? then Work(ss[|ts|]) else 0
    {
      var s := ss[|ts|];
      CommitGoesOn(cf, s);
      var t := CommitStep(s);
      FromMore(cf, ss, ts, ds, t);
      StepInv(cf, s, t);
      ss, ts := ss + [Next(cf, s, t)], ts + [t];
    }
  }

  /** The block writes of recovering disk i. */
  ghost function RecoverWrites(cf: Config, s: State, i: nat): (n: nat)
    requires s.Down? && i < |s.boot| == |cf.areas|
  {
    if cf.areas[i].start in s.boot[i] then |cf.areas[i].decode(s.boot[i][cf.areas[i].start])| + 1 else 0
  }

  /** No disk has had more writes than its recovery takes. */
  ghost predicate Bounded(cf: Config, s: State) {
    s.Down? ==>
      && |s.boot| == |s.ks| == |cf.areas|
      && forall i: nat :: i < |s.boot| ==> s.ks[i] <= RecoverWrites(cf, s, i)
  }

  lemma {:induction false} RunBounded(cf: Config, ss: seq<State>, ts: seq<Step>, ds: seq<Disk>)
    requires From(cf, ss, ts, ds)
    ensures Bounded(cf, ss[|ts|])
  {
    hide Inv, SpaceInv, Next;
    if ts != [] {
      var n := |ts| - 1;
      assert From(cf, ss[..n + 1], ts[..n], ds);
      RunBounded(cf, ss[..n + 1], ts[..n], ds);
      PrefixInv(cf, ss, ts, ds, n);
      StepBounded(cf, ss[n], ts[n]);
    }
  }

  lemma {:induction false} StepBounded(cf: Config, s: State, t: Step)
    requires Inv(cf, s) && Bounded(cf, s) && Enabled(cf, s, t)
    ensures Bounded(cf, Next(cf, s, t))
  {
    hide DiskInv, CommitUpTo, RecoverUpTo, Recover;
  }

  /** A disk whose recovery is not complete can be written. */
  lemma {:induction false} RecoveryGoesOn(cf: Config, s: State, i: nat)
    requires Inv(cf, s) && Bounded(cf, s) && s.Down? && i < |s.ks| && s.ks[i] < RecoverWrites(cf, s, i)
    ensures Enabled(cf, s, RecoverWrite(i)) && Next(cf, s, RecoverWrite(i)) == s.(ks := s.ks[i := s.ks[i] + 1])
  {
    hide Recover;
  }

  lemma {:induction false} AllRecovered(cf: Config, s: State)
    requires Inv(cf, s) && s.Down? && |s.ks| == |s.boot| == |cf.areas|
    requires forall i: nat :: i < |s.boot| ==> s.ks[i] == RecoverWrites(cf, s, i)
    ensures Enabled(cf, s, BootDone)
  {
    hide Recover;
    forall i | 0 <= i < |s.ks| ensures s.ks[i] == |cf.areas[i].decode(s.boot[i][cf.areas[i].start])| + 1 {
      assert s.ks[i] == RecoverWrites(cf, s, i) && ValidDisk(s.boot[i], cf.areas[i]);
    }
  }

  /** Recovery, if it is left alone, comes to its end, and the system is up with what the crash had left to produce. */
  lemma {:induction false} RecoveryEnds(cf: Config, ss0: seq<State>, ts0: seq<Step>, ds: seq<Disk>)
    returns (ss: seq<State>, ts: seq<Step>)
    requires From(cf, ss0, ts0, ds) && |ss0| == |ts0| + 1 && ss0[|ts0|].Down?
    ensures From(cf, ss, ts, ds) && |ss| == |ts| + 1 && ts0 <= ts
    ensures forall m :: |ts0| <= m < |ts| ==> ts[m].RecoverWrite? || ts[m].BootDone?
    ensures ss[|ts|].Up? && ss[|ts|].init == ss0[|ts0|].target
  {
    hide Next, Enabled, Run, Formatted, Inv, From, RecoverWrites;
    ss, ts := ss0, ts0;
    DownAt(cf, ss, ts, ds);
    var first := ss[|ts|];
    var i: nat := 0;
    while i < |first.boot|
      invariant i <= |first.boot| && From(cf, ss, ts, ds) && |ss| == |ts| + 1 && ts0 <= ts
      invariant forall m :: |ts0| <= m < |ts| ==> ts[m].RecoverWrite? || ts[m].BootDone?
      invariant ss[|ts|].Down? && ss[|ts|] == first.(ks := ss[|ts|].ks) && Inv(cf, ss[|ts|]) && Bounded(cf, ss[|ts|])
      invariant forall j: nat :: j < i ==> j < |ss[|ts|].ks| && ss[|ts|].ks[j] == RecoverWrites(cf, first, j)
      decreases |first.boot| - i, if i < |ss[|ts|].ks| then RecoverWrites(cf, first, i) - ss[|ts|].ks[i] else 0
    {
      var s := ss[|ts|];
      assert RecoverWrites(cf, s, i) == RecoverWrites(cf, first, i) by {
        SameWrites(cf, s, first, i);
      }
      if s.ks[i] < RecoverWrites(cf, s, i) {
        RecoveryGoesOn(cf, s, i);
        FromMore(cf, ss, ts, ds, RecoverWrite(i));
        StepInv(cf, s, RecoverWrite(i));
        StepBounded(cf, s, RecoverWrite(i));
        ss, ts := ss + [Next(cf, s, RecoverWrite(i))], ts + [RecoverWrite(i)];
      } else {
        i := i + 1;
      }
    }
    var s := ss[|ts|];
    forall j: nat | j < |s.boot| ensures s.ks[j] == RecoverWrites(cf, s, j) {
      SameWrites(cf, s, first, j);
    }
    AllRecovered(cf, s);
    BootDoneInv(cf, s);
    FromMore(cf, ss, ts, ds, BootDone);
    ss, ts := ss + [Next(cf, s, BootDone)], ts + [BootDone];
  }

  lemma {:induction false} SameWrites(cf: Config, s: State, r: State, i: nat)
    requires s.Down? && r.Down? && s.boot == r.boot && i < |s.boot| == |cf.areas|
    ensures RecoverWrites(cf, s, i) == RecoverWrites(cf, r, i)
  {
  }

  lemma {:induction false} DownAt(cf: Config, ss: seq<State>, ts: seq<Step>, ds: seq<Disk>)
    requires From(cf, ss, ts, ds) && ss[|ts|].Down?
    ensures Inv(cf, ss[|ts|]) && Bounded(cf, ss[|ts|])
  {
    RunInv(cf, ss, ts, ds);
    RunBounded(cf, ss, ts, ds);
  }

  // ---- a run into the full log

  lemma {:induction false} FromMore(cf: Config, ss: seq<State>, ts: seq<Step>, ds: seq<Disk>, t: Step)
    requires From(cf, ss, ts, ds) && |ss| == |ts| + 1 && Enabled(cf, ss[|ts|], t)
    ensures From(cf, ss + [Next(cf, ss[|ts|], t)], ts + [t], ds)
  {
    hide Next, Enabled, Booted, Formatted;
    var rs, us := ss + [Next(cf, ss[|ts|], t)], ts + [t];
    forall k | 0 <= k < |us| ensures Enabled(cf, rs[k], us[k]) && rs[k + 1] == Next(cf, rs[k], us[k]) {
      assert k < |ts| ==> rs[k] == ss[k] && rs[k + 1] == ss[k + 1] && us[k] == ts[k];
    }
  }

  /** k operations have begun since the boot and done nothing; begin_op is at check. */
  ghost predicate Begun(cf: Config, ds: seq<Disk>, s: State, k: nat, check: Check) {
    && |ds| == |cf.areas| && s.Up? && |s.ops| == k && s.check == check
    && s.(ops := [], nextOp := 0, check := Free) == Booted(cf, ds)
    && forall x :: 0 <= x < k ==> s.ops[x].wrote == s.ops[x].added == seq(|ds|, _ => {})
  }

  lemma {:induction false} LockBegun(cf: Config, ds: seq<Disk>, s: State, k: nat)
    requires Begun(cf, ds, s, k, Free)
    ensures Enabled(cf, s, BeginLock) && Begun(cf, ds, Next(cf, s, BeginLock), k, Checking(0, false))
  {
  }

  lemma {:induction false} CheckBegun(cf: Config, ds: seq<Disk>, s: State, k: nat, i: nat)
    requires Begun(cf, ds, s, k, Checking(i, false)) && i < |ds| && (k + 1) * cf.maxOp <= cf.areas[i].cap
    ensures Enabled(cf, s, BeginCheck) && Begun(cf, ds, Next(cf, s, BeginCheck), k, Checking(i + 1, false))
  {
  }

  lemma {:induction false} DoneBegun(cf: Config, ds: seq<Disk>, s: State, k: nat)
    requires Begun(cf, ds, s, k, Checking(|ds|, false))
    ensures Enabled(cf, s, BeginDone) && Begun(cf, ds, Next(cf, s, BeginDone), k + 1, Free)
  {
  }

  /** One more begin_op gets in. */
  lemma {:induction false} BeginOne(cf: Config, ds: seq<Disk>, ss0: seq<State>, ts0: seq<Step>, k: nat)
    returns (ss: seq<State>, ts: seq<Step>)
    requires From(cf, ss0, ts0, ds) && |ss0| == |ts0| + 1 && Begun(cf, ds, ss0[|ts0|], k, Free)
    requires forall i :: 0 <= i < |cf.areas| ==> (k + 1) * cf.maxOp <= cf.areas[i].cap
    ensures From(cf, ss, ts, ds) && |ss| == |ts| + 1 && Begun(cf, ds, ss[|ts|], k + 1, Free)
    ensures ts0 <= ts && forall m :: |ts0| <= m < |ts| ==> !ts[m].LogWrite?
  {
    hide Next, Enabled, Begun, Run, Formatted;
    RunSize(cf, ss0, ts0, ds);
    LockBegun(cf, ds, ss0[|ts0|], k);
    FromMore(cf, ss0, ts0, ds, BeginLock);
    ss, ts := ss0 + [Next(cf, ss0[|ts0|], BeginLock)], ts0 + [BeginLock];
    var i := 0;
    while i < |ds|
      invariant 0 <= i <= |ds| == |cf.areas| && From(cf, ss, ts, ds) && |ts| == |ts0| + 1 + i && |ss| == |ts| + 1
      invariant Begun(cf, ds, ss[|ts|], k, Checking(i, false))
      invariant ts0 <= ts && forall m :: |ts0| <= m < |ts| ==> !ts[m].LogWrite?
    {
      CheckBegun(cf, ds, ss[|ts|], k, i);
      FromMore(cf, ss, ts, ds, BeginCheck);
      ss, ts := ss + [Next(cf, ss[|ts|], BeginCheck)], ts + [BeginCheck];
      i := i + 1;
    }
    DoneBegun(cf, ds, ss[|ts|], k);
    FromMore(cf, ss, ts, ds, BeginDone);
    ss, ts := ss + [Next(cf, ss[|ts|], BeginDone)], ts + [BeginDone];
  }

  lemma {:induction false} RunSize(cf: Config, ss: seq<State>, ts: seq<Step>, ds: seq<Disk>)
    requires From(cf, ss, ts, ds)
    ensures |ss| == |ts| + 1 && |ds| == |cf.areas| > 0
  {
  }

  /** bs[x] are the blocks that operation x logs: maxOp home blocks of disk dev, all different. */
  ghost predicate HomeBlocks(cf: Config, ds: seq<Disk>, dev: nat, bs: seq<seq<nat>>) {
    && dev < |ds| == |cf.areas|
    && (forall x, y :: 0 <= x < |bs| && 0 <= y < |bs[x]| ==>
          bs[x][y] in Home(ds[dev], cf.areas[dev]) && bs[x][y] < cf.areas[dev].limit)
    && (forall x :: 0 <= x < |bs| ==> |bs[x]| == cf.maxOp)
    && (forall x, y, u, v ::
          0 <= x < |bs| && 0 <= y < |bs[x]| && 0 <= u < |bs| && 0 <= v < |bs[u]| && bs[x][y] == bs[u][v] ==>
            x == u && y == v)
  }

  /** The blocks of the first x operations. */
  ghost function Flat(bs: seq<seq<nat>>, x: nat): (r: seq<nat>)
    requires x <= |bs|
  {
    if x == 0 then [] else Flat(bs, x - 1) + bs[x - 1]
  }

  lemma {:induction false} FlatHas(bs: seq<seq<nat>>, x: nat, b: nat)
    requires x <= |bs|
    ensures b in Flat(bs, x) <==> exists u, v :: 0 <= u < x && 0 <= v < |bs[u]| && bs[u][v] == b
  {
    if x > 0 {
      FlatHas(bs, x - 1, b);
      if b in bs[x - 1] {
        var v :| 0 <= v < |bs[x - 1]| && bs[x - 1][v] == b;
      }
    }
  }

  lemma {:induction false} FlatSize(bs: seq<seq<nat>>, x: nat, m: nat)
    requires x <= |bs| && forall u :: 0 <= u < |bs| ==> |bs[u]| == m
    ensures |Flat(bs, x)| == x * m
  {
    if x > 0 {
      FlatSize(bs, x - 1, m);
      assert x * m == (x - 1) * m + m;
    }
  }

  /** The operations before x have logged their blocks, and x the first y of its own. */
  ghost predicate Filled(cf: Config, ds: seq<Disk>, s: State, dev: nat, bs: seq<seq<nat>>, x: nat, y: nat) {
    && s.Up? && dev < |ds| == |cf.areas| == |s.lh| == |s.view| && x <= |bs| == |s.ops|
    && y <= (if x < |bs| then |bs[x]| else 0)
    && s.lh[dev] == Flat(bs, x) + (if x < |bs| then bs[x][..y] else [])
    && s.view[dev].Keys == Home(ds[dev], cf.areas[dev]).Keys
    && (forall u :: 0 <= u < |bs| ==> |s.ops[u].wrote| == |s.ops[u].added| == |ds|)
    && (forall u :: x < u < |bs| ==> s.ops[u].wrote[dev] == {})
    && (x < |bs| ==> |s.ops[x].wrote[dev]| <= y)
    && (forall u: nat, v: nat :: u < |bs| && v < |bs[u]| && (u < x || (u == x && v < y)) ==>
         WroteBlock(s, dev, bs, u, v))
  }

  ghost predicate WroteBlock(s: State, dev: nat, bs: seq<seq<nat>>, u: nat, v: nat) {
    s.Up? && u < |bs| == |s.ops| && v < |bs[u]| && dev < |s.ops[u].wrote| && bs[u][v] in s.ops[u].wrote[dev]
  }

  lemma {:induction false} FillStart(cf: Config, ds: seq<Disk>, s: State, dev: nat, bs: seq<seq<nat>>)
    requires Begun(cf, ds, s, |bs|, Free) && dev < |ds|
    ensures Filled(cf, ds, s, dev, bs, 0, 0)
  {
    assert bs != [] ==> [] + bs[0][..0] == [];
  }

  lemma {:induction false} FillNext(cf: Config, ds: seq<Disk>, s: State, dev: nat, bs: seq<seq<nat>>, x: nat)
    requires x < |bs| && Filled(cf, ds, s, dev, bs, x, |bs[x]|)
    ensures Filled(cf, ds, s, dev, bs, x + 1, 0)
  {
    hide Home;
    assert bs[x][..|bs[x]|] == bs[x];
    assert x + 1 < |bs| ==> Flat(bs, x + 1) + bs[x + 1][..0] == Flat(bs, x + 1);
  }

  /** The next block is new to the log, and there is room for it. */
  lemma {:induction false} NextIsNew(cf: Config, ds: seq<Disk>, s: State, dev: nat, bs: seq<seq<nat>>, x: nat, y: nat)
    requires Filled(cf, ds, s, dev, bs, x, y) && HomeBlocks(cf, ds, dev, bs) && x < |bs| && y < |bs[x]|
    ensures bs[x][y] !in s.lh[dev] && |s.lh[dev]| < |bs| * cf.maxOp
    ensures bs[x][y] in s.view[dev] && bs[x][y] < cf.areas[dev].limit
  {
    hide Home;
    FlatHas(bs, x, bs[x][y]);
    FlatSize(bs, x, cf.maxOp);
    assert (x + 1) * cf.maxOp == x * cf.maxOp + cf.maxOp;
    MulMonotone(x + 1, |bs|, cf.maxOp);
    assert bs[x][y] in s.view[dev].Keys;
  }

  lemma {:induction false} MulMonotone(a: nat, b: nat, m: nat)
    requires a <= b
    ensures a * m <= b * m
  {
  }

  lemma {:induction false} FillEnabled(cf: Config, ds: seq<Disk>, s: State, dev: nat, bs: seq<seq<nat>>, x: nat, y: nat,
                                       data: Block)
    requires Filled(cf, ds, s, dev, bs, x, y) && HomeBlocks(cf, ds, dev, bs) && x < |bs| && y < |bs[x]|
    requires cf.areas[dev].cap == |bs| * cf.maxOp
    ensures Enabled(cf, s, LogWrite(x, dev, bs[x][y], data)) && Next(cf, s, LogWrite(x, dev, bs[x][y], data)).Up?
    ensures bs[x][y] !in s.lh[dev]
  {
    hide Home, Flat;
    NextIsNew(cf, ds, s, dev, bs, x, y);
  }

  lemma {:induction false} FillMore(cf: Config, ds: seq<Disk>, s: State, dev: nat, bs: seq<seq<nat>>, x: nat, y: nat,
                                    data: Block)
    requires Filled(cf, ds, s, dev, bs, x, y) && HomeBlocks(cf, ds, dev, bs) && x < |bs| && y < |bs[x]|
    requires cf.areas[dev].cap == |bs| * cf.maxOp
    ensures Enabled(cf, s, LogWrite(x, dev, bs[x][y], data))
    ensures Filled(cf, ds, Next(cf, s, LogWrite(x, dev, bs[x][y], data)), dev, bs, x, y + 1)
  {
    hide Home, Enabled, Next, HomeBlocks, Flat;
    FillEnabled(cf, ds, s, dev, bs, x, y, data);
    var r := Next(cf, s, LogWrite(x, dev, bs[x][y], data));
    NewlyLogged(cf, s, LogWrite(x, dev, bs[x][y], data));
    assert r.lh[dev] == Flat(bs, x) + bs[x][..y + 1] by {
      assert bs[x][..y] + [bs[x][y]] == bs[x][..y + 1];
    }
    forall u: nat, v: nat | u < |bs| && v < |bs[u]| && (u < x || (u == x && v < y + 1))
      ensures WroteBlock(r, dev, bs, u, v) {
      assert u < x || v < y ==> WroteBlock(s, dev, bs, u, v);
    }
  }

  /** What logging a new block changes. */
  lemma {:induction false} NewlyLogged(cf: Config, s: State, t: Step)
    requires t.LogWrite? && Enabled(cf, s, t) && s.Up? && Next(cf, s, t).Up? && t.block !in s.lh[t.dev]
    ensures var r := Next(cf, s, t);
            && |r.lh| == |s.lh| && |r.view| == |s.view| && |r.ops| == |s.ops| && t.dev < |s.lh| && t.dev < |s.view|
            && r.lh[t.dev] == s.lh[t.dev] + [t.block] && r.view[t.dev].Keys == s.view[t.dev].Keys
            && t.x < |s.ops| && t.dev < |s.ops[t.x].wrote|
               && |r.ops[t.x].wrote| == |s.ops[t.x].wrote| == |r.ops[t.x].added|
            && r.ops[t.x].wrote[t.dev] == s.ops[t.x].wrote[t.dev] + {t.block}
            && forall x :: 0 <= x < |s.ops| && x != t.x ==> r.ops[x] == s.ops[x]
  {
    assert t.block in s.view[t.dev].Keys;
  }

  lemma {:induction false} FullPanics(cf: Config, ds: seq<Disk>, s: State, dev: nat, bs: seq<seq<nat>>, u: nat, v: nat,
                                      data: Block)
    requires Filled(cf, ds, s, dev, bs, |bs|, 0) && HomeBlocks(cf, ds, dev, bs) && u < |bs| && v < |bs[u]|
    requires cf.areas[dev].cap == |bs| * cf.maxOp
    ensures Enabled(cf, s, LogWrite(u, dev, bs[u][v], data))
            && Next(cf, s, LogWrite(u, dev, bs[u][v], data)) == Panicked
  {
    hide Home;
    assert WroteBlock(s, dev, bs, u, v);
    FlatSize(bs, |bs|, cf.maxOp);
    assert bs[u][v] in s.view[dev].Keys;
  }

  /** The log_writes of one operation, and of the first x operations. */
  function WritesOf(x: nat, dev: nat, blocks: seq<nat>, data: Block): (ts: seq<Step>) {
    seq(|blocks|, y requires 0 <= y < |blocks| => LogWrite(x, dev, blocks[y], data))
  }

  function Writes(bs: seq<seq<nat>>, x: nat, dev: nat, data: Block): (ts: seq<Step>)
    requires x <= |bs|
  {
    if x == 0 then [] else Writes(bs, x - 1, dev, data) + WritesOf(x - 1, dev, bs[x - 1], data)
  }

  /** Operation x logs its blocks. */
  lemma {:induction false} FillOne(cf: Config, ds: seq<Disk>, ss0: seq<State>, ts0: seq<Step>, dev: nat,
                                   bs: seq<seq<nat>>, x: nat, data: Block) returns (ss: seq<State>, ts: seq<Step>)
    requires From(cf, ss0, ts0, ds) && |ss0| == |ts0| + 1 && Filled(cf, ds, ss0[|ts0|], dev, bs, x, 0)
    requires HomeBlocks(cf, ds, dev, bs) && x < |bs| && dev < |cf.areas| && cf.areas[dev].cap == |bs| * cf.maxOp
    ensures From(cf, ss, ts, ds) && |ss| == |ts| + 1 && ts == ts0 + WritesOf(x, dev, bs[x], data)
    ensures Filled(cf, ds, ss[|ts|], dev, bs, x + 1, 0)
  {
    hide Run, Filled, HomeBlocks, Next, Enabled, From;
    var all := WritesOf(x, dev, bs[x], data);
    ss, ts := ss0, ts0;
    var y := 0;
    assert ts0 + all[..0] == ts0;
    while y < |bs[x]|
      invariant 0 <= y <= |bs[x]| && From(cf, ss, ts, ds) && |ss| == |ts| + 1 && ts == ts0 + all[..y]
      invariant Filled(cf, ds, ss[|ts|], dev, bs, x, y)
    {
      FillMore(cf, ds, ss[|ts|], dev, bs, x, y, data);
      FromMore(cf, ss, ts, ds, all[y]);
      ss, ts := ss + [Next(cf, ss[|ts|], all[y])], ts + [all[y]];
      assert all[..y] + [all[y]] == all[..y + 1];
      y := y + 1;
    }
    assert all[..y] == all;
    FillNext(cf, ds, ss[|ts|], dev, bs, x);
  }

  /** n operations have begun. */
  lemma {:induction false} BeginAll(cf: Config, ds: seq<Disk>, n: nat) returns (ss: seq<State>, ts: seq<Step>)
    requires Formatted(cf, ds) && forall i :: 0 <= i < |cf.areas| ==> n * cf.maxOp <= cf.areas[i].cap
    ensures From(cf, ss, ts, ds) && |ss| == |ts| + 1 && Begun(cf, ds, ss[|ts|], n, Free)
    ensures forall m :: 0 <= m < |ts| ==> !ts[m].LogWrite?
  {
    hide Formatted, Begun, Run, From;
    NothingBegun(cf, ds);
    ss, ts := [Booted(cf, ds)], [];
    var k := 0;
    while k < n
      invariant 0 <= k <= n && From(cf, ss, ts, ds) && |ss| == |ts| + 1 && Begun(cf, ds, ss[|ts|], k, Free)
      invariant forall m :: 0 <= m < |ts| ==> !ts[m].LogWrite?
    {
      MulMonotone(k + 1, n, cf.maxOp);
      ss, ts := BeginOne(cf, ds, ss, ts, k);
      k := k + 1;
    }
  }

  lemma {:induction false} NothingBegun(cf: Config, ds: seq<Disk>)
    requires Formatted(cf, ds)
    ensures |ds| == |cf.areas|
    ensures From(cf, [Booted(cf, ds)], [], ds) && Begun(cf, ds, Booted(cf, ds), 0, Free)
  {
  }

  /** The full-log panic is tested before the search for an earlier copy, so an operation that has written no more than
      MAXOPBLOCKS blocks can still hit it, by writing one of them again. For any number of disks, where a log takes
      exactly n operations (with LOGBLOCKS 30 and MAXOPBLOCKS 10, three): n operations begin, each logs maxOp blocks of
      disk dev, all blocks distinct, and then any operation logs any block of its own a second time. */
  lemma {:induction false} RelogCanPanic(cf: Config, ds: seq<Disk>, dev: nat, bs: seq<seq<nat>>, u: nat, v: nat,
                                         data: Block)
    returns (ss: seq<State>, ts: seq<Step>, begins: seq<Step>)
    requires Formatted(cf, ds) && HomeBlocks(cf, ds, dev, bs) && u < |bs| && v < |bs[u]|
    requires cf.areas[dev].cap == |bs| * cf.maxOp
    requires forall i :: 0 <= i < |cf.areas| ==> |bs| * cf.maxOp <= cf.areas[i].cap
    ensures From(cf, ss, ts, ds) && ss[|ts|] == Panicked
    ensures ts == begins + Writes(bs, |bs|, dev, data) + [LogWrite(u, dev, bs[u][v], data)]
    ensures forall m :: 0 <= m < |begins| ==> !begins[m].LogWrite?
  {
    hide Formatted, Begun, Run, Filled, HomeBlocks, Next, Enabled, From;
    ss, begins := BeginAll(cf, ds, |bs|);
    ts := begins;
    DevBound(cf, ds, dev, bs);
    FillStart(cf, ds, ss[|ts|], dev, bs);
    var x := 0;
    while x < |bs|
      invariant 0 <= x <= |bs| && From(cf, ss, ts, ds) && |ss| == |ts| + 1 && ts == begins + Writes(bs, x, dev, data)
      invariant Filled(cf, ds, ss[|ts|], dev, bs, x, 0)
    {
      ss, ts := FillOne(cf, ds, ss, ts, dev, bs, x, data);
      x := x + 1;
    }
    FullPanics(cf, ds, ss[|ts|], dev, bs, u, v, data);
    var last := LogWrite(u, dev, bs[u][v], data);
    FromMore(cf, ss, ts, ds, last);
    ss, ts := ss + [Next(cf, ss[|ts|], last)], ts + [last];
  }

  lemma {:induction false} DevBound(cf: Config, ds: seq<Disk>, dev: nat, bs: seq<seq<nat>>)
    requires HomeBlocks(cf, ds, dev, bs)
    ensures dev < |ds| == |cf.areas|
  {
  }

  /** The exact condition, for every enabled log_write: it panics if and only if the log is full, and in a run
      that can only be for a block the operation had already written. */
  lemma {:induction false} LogWritePanicsIff(cf: Config, ss: seq<State>, ts: seq<Step>, ds: seq<Disk>, t: Step)
    requires From(cf, ss, ts, ds) && t.LogWrite? && Enabled(cf, ss[|ts|], t)
    ensures Next(cf, ss[|ts|], t) == Panicked <==> |ss[|ts|].lh[t.dev]| == cf.areas[t.dev].cap
    ensures Next(cf, ss[|ts|], t) == Panicked ==>
              t.block in ss[|ts|].ops[t.x].wrote[t.dev] && t.block in ss[|ts|].lh[t.dev]
  {
    hide DiskInv, CommitUpTo, Inv;
    RunInv(cf, ss, ts, ds);
    var s := ss[|ts|];
    assert Space(cf, s, t.dev) && OpSpace(s.ops[t.x], t.dev, cf.maxOp, s.lh[t.dev]);
    assert AllOpSpace(s.ops, t.dev, cf.maxOp, s.lh[t.dev]);
    ReservedBounds(s.ops, t.dev, cf.maxOp, s.lh[t.dev]);
    if t.block !in s.ops[t.x].wrote[t.dev] {
      WithinBudgetNeverFull(cf, ss, ts, ds, t);
    }
  }
}
