/** kernel/log.c over the buffer cache: the order of the block writes of commit and of recovery. */
module Log {
  import opened Blocks
  import opened CacheSpec
  import opened BufferCache
  import opened CrashSpec
  import LogHeader

  /** d with device dev replaced by e. */
  function Swap(d: Store, dev: nat, e: Disk): (r: Store) {
    d[dev := e]
  }

  /** write_head, on a store whose device dev holds e. */
  lemma {:induction false} HeaderSwap(d: Store, dev: nat, e: Disk, g: LogArea, lh: seq<nat>)
    requires g.start in e
    ensures dev in Swap(d, dev, e) && Swap(d, dev, e)[dev] == e
    ensures Swap(Swap(d, dev, e), dev, WithHeader(Swap(d, dev, e)[dev], g, lh)) == Swap(d, dev, WithHeader(e, g, lh))
  {
  }

  lemma {:induction false} Append(a: seq<Store>, b: seq<Store>, c: seq<Store>)
    ensures (a + b) + c == a + (b + c)
  {
  }

  ghost predicate CleanLog(c: Cache, dev: nat, g: LogArea) {
    && dev in c.disk && dev in c.logical && HasLog(c.disk[dev], g) && HasLog(c.logical[dev], g)
    && forall b: nat :: InLog(g, b) ==> c.logical[dev][b] == c.disk[dev][b]
  }

  lemma {:induction false} CleanHas(c: Cache, dev: nat, g: LogArea)
    requires CleanLog(c, dev, g)
    ensures dev in c.disk && dev in c.logical && HasLog(c.disk[dev], g) && HasLog(c.logical[dev], g)
  {
  }

  lemma {:induction false} CleanAt(c: Cache, dev: nat, g: LogArea, m: nat)
    requires CleanLog(c, dev, g) && m < g.cap
    ensures dev in c.disk && dev in c.logical && g.start + m + 1 in c.disk[dev] && g.start + m + 1 in c.logical[dev]
    ensures c.logical[dev][g.start + m + 1] == c.disk[dev][g.start + m + 1]
  {
    assert InLog(g, g.start + m + 1);
  }

  /** The disks left by the first m writes of write_log. */
  ghost function LogTrace(d: Store, dev: nat, g: LogArea, lh: seq<nat>, newer: Disk, m: nat): (t: seq<Store>)
    requires dev in d && m <= |lh| && forall i :: 0 <= i < |lh| ==> lh[i] in newer
  {
    seq(m, j requires 0 <= j < m => Swap(d, dev, Logged(d[dev], g, lh, newer, j + 1)))
  }

  /** The disks left by the first m writes of install_trans. */
  ghost function InstallTrace(d: Store, dev: nat, g: LogArea, lh: seq<nat>, m: nat): (t: seq<Store>)
    requires dev in d && HasLog(d[dev], g) && m <= |lh| <= g.cap
  {
    seq(m, j requires 0 <= j < m => Swap(d, dev, Installed(d[dev], g, lh, j + 1)))
  }

  lemma {:induction false} LogTraceStep(d: Store, dev: nat, g: LogArea, lh: seq<nat>, newer: Disk, m: nat)
    requires dev in d && m < |lh| && forall i :: 0 <= i < |lh| ==> lh[i] in newer
    ensures LogTrace(d, dev, g, lh, newer, m + 1) ==
            LogTrace(d, dev, g, lh, newer, m) + [Swap(d, dev, Logged(d[dev], g, lh, newer, m + 1))]
  {
  }

  /** One more log block, on a store. */
  lemma {:induction false} LoggedPut(d: Store, dev: nat, g: LogArea, lh: seq<nat>, newer: Disk, m: nat)
    requires dev in d && HasLog(d[dev], g) && m < |lh| <= g.cap
    requires forall i :: 0 <= i < |lh| ==> lh[i] in newer && lh[i] in d[dev] && !InLog(g, lh[i])
    ensures var e := Swap(d, dev, Logged(d[dev], g, lh, newer, m));
            && InStore(e, (dev, g.start + m + 1)) && InStore(e, (dev, lh[m]))
            && g.start + m + 1 != lh[m]
            && Get(e, (dev, lh[m])) == d[dev][lh[m]]
            && Put(e, (dev, g.start + m + 1), newer[lh[m]]) == Swap(d, dev, Logged(d[dev], g, lh, newer, m + 1))
  {
    LoggedShape(d[dev], g, lh, newer, m);
    assert InLog(g, g.start + m + 1);
  }

  lemma {:induction false} LoggedNone(d: Store, dev: nat, g: LogArea, lh: seq<nat>, newer: Disk)
    requires dev in d && forall i :: 0 <= i < |lh| ==> lh[i] in newer
    ensures Swap(d, dev, Logged(d[dev], g, lh, newer, 0)) == d && LogTrace(d, dev, g, lh, newer, 0) == []
  {
  }

  lemma {:induction false} InstallTraceStep(d: Store, dev: nat, g: LogArea, lh: seq<nat>, m: nat)
    requires dev in d && HasLog(d[dev], g) && m < |lh| <= g.cap
    ensures InstallTrace(d, dev, g, lh, m + 1) ==
            InstallTrace(d, dev, g, lh, m) + [Swap(d, dev, Installed(d[dev], g, lh, m + 1))]
  {
  }

  /** One more installed block, on a store. */
  lemma {:induction false} InstalledPut(d: Store, dev: nat, g: LogArea, lh: seq<nat>, m: nat)
    requires dev in d && HasLog(d[dev], g) && ValidList(lh, d[dev], g) && m < |lh|
    ensures var e := Swap(d, dev, Installed(d[dev], g, lh, m));
            && InStore(e, (dev, g.start + m + 1)) && InStore(e, (dev, lh[m]))
            && g.start + m + 1 != lh[m] && g.start + m + 1 in d[dev]
            && Get(e, (dev, g.start + m + 1)) == d[dev][g.start + m + 1]
            && Put(e, (dev, lh[m]), d[dev][g.start + m + 1]) == Swap(d, dev, Installed(d[dev], g, lh, m + 1))
  {
    assert InLog(g, g.start + m + 1);
    InstalledKeys(d[dev], g, lh, m);
    InstalledAt(d[dev], g, lh, m, g.start + m + 1);
  }

  /** The pins left after the first m blocks of lh have been unpinned. */
  ghost function Unpinned(pinned: set<Id>, dev: nat, lh: seq<nat>, m: nat): (r: set<Id>)
    requires m <= |lh|
  {
    pinned - set i | 0 <= i < m :: (dev, lh[i])
  }

  lemma {:induction false} UnpinnedStep(pinned: set<Id>, dev: nat, lh: seq<nat>, m: nat)
    requires m <= |lh|
    ensures m == 0 ==> Unpinned(pinned, dev, lh, m) == pinned
    ensures m > 0 ==> Unpinned(pinned, dev, lh, m) == Unpinned(pinned, dev, lh, m - 1) - {(dev, lh[m - 1])}
  {
  }

  lemma {:induction false} StillPinned(pinned: set<Id>, dev: nat, lh: seq<nat>, m: nat)
    requires m < |lh| && (dev, lh[m]) in pinned && forall i, j :: 0 <= i < j < |lh| ==> lh[i] != lh[j]
    ensures (dev, lh[m]) in Unpinned(pinned, dev, lh, m)
  {
  }

  lemma {:induction false} UnpinnedLess(pinned: set<Id>, dev: nat, lh: seq<nat>, m: nat)
    requires m <= |lh|
    ensures Unpinned(pinned, dev, lh, m) <= pinned
  {
  }

  lemma {:induction false} InstalledNone(d: Store, dev: nat, g: LogArea, lh: seq<nat>)
    requires dev in d && HasLog(d[dev], g) && |lh| <= g.cap
    ensures Swap(d, dev, Installed(d[dev], g, lh, 0)) == d
    ensures InstallTrace(d, dev, g, lh, 0) == []
  {
  }

  /** The disks left by the first k writes of a whole commit. */
  ghost function CommitTrace(d: Store, dev: nat, g: LogArea, lh: seq<nat>, newer: Disk, k: nat): (t: seq<Store>)
    requires dev in d && CanCommit(d[dev], g, lh, newer)
  {
    seq(k, j requires 0 <= j < k => Swap(d, dev, CommitUpTo(d[dev], g, lh, newer, j + 1)))
  }

  ghost predicate CanCommit(d: Disk, g: LogArea, lh: seq<nat>, newer: Disk) {
    && ValidArea(g) && HasLog(d, g) && ValidList(lh, d, g)
    && forall i :: 0 <= i < |lh| ==> lh[i] in newer
  }

  /** The disks left by the first k writes of a whole recovery. */
  ghost function RecoverTrace(d: Store, dev: nat, g: LogArea, k: nat): (t: seq<Store>)
    requires dev in d && ValidDisk(d[dev], g)
  {
    seq(k, j requires 0 <= j < k => Swap(d, dev, RecoverUpTo(d[dev], g, j + 1)))
  }

  lemma {:induction false} CommitTraceLog(d: Store, dev: nat, g: LogArea, lh: seq<nat>, newer: Disk, k: nat)
    requires dev in d && CanCommit(d[dev], g, lh, newer) && k <= |lh|
    ensures CommitTrace(d, dev, g, lh, newer, k) == LogTrace(d, dev, g, lh, newer, k)
    ensures CommitUpTo(d[dev], g, lh, newer, k) == Logged(d[dev], g, lh, newer, k)
  {
  }

  /** install_trans is the beginning of recovery; clearing the header is the end of it. */
  lemma {:induction false} RecoverTraceInstall(d: Store, dev: nat, g: LogArea, m: nat)
    requires dev in d && ValidDisk(d[dev], g) && m <= |g.decode(d[dev][g.start])|
    ensures RecoverTrace(d, dev, g, m) == InstallTrace(d, dev, g, g.decode(d[dev][g.start]), m)
    ensures RecoverUpTo(d[dev], g, m) == Installed(d[dev], g, g.decode(d[dev][g.start]), m)
  {
  }

  lemma {:induction false} RecoverTraceNext(d: Store, dev: nat, g: LogArea, m: nat)
    requires dev in d && ValidDisk(d[dev], g)
    ensures RecoverTrace(d, dev, g, m + 1) == RecoverTrace(d, dev, g, m) + [Swap(d, dev, RecoverUpTo(d[dev], g, m + 1))]
  {
  }

  /** install_trans then write_head of the emptied list, on a store. */
  lemma {:induction false} HeadCleared(d: Store, dev: nat, g: LogArea)
    requires dev in d && ValidDisk(d[dev], g)
    ensures var lh := g.decode(d[dev][g.start]);
            var e := Swap(d, dev, Installed(d[dev], g, lh, |lh|));
            && dev in e && g.start in e[dev] && e[dev].Keys == d[dev].Keys && HasLog(e[dev], g)
            && Swap(e, dev, WithHeader(e[dev], g, [])) == Swap(d, dev, RecoverUpTo(d[dev], g, |lh| + 1))
  {
    InstalledValid(d[dev], g, |g.decode(d[dev][g.start])|);
  }

  /** After the header write, commit goes on exactly as recovery would. */
  lemma {:induction false} CommitTraceTail(d: Store, dev: nat, g: LogArea, lh: seq<nat>, newer: Disk, m: nat)
    requires dev in d && CanCommit(d[dev], g, lh, newer)
    requires ValidDisk(CommitUpTo(d[dev], g, lh, newer, |lh| + 1), g)
    ensures var e := Swap(d, dev, CommitUpTo(d[dev], g, lh, newer, |lh| + 1));
            && dev in e && Swap(e, dev, RecoverUpTo(e[dev], g, m)) ==
                 Swap(d, dev, CommitUpTo(d[dev], g, lh, newer, |lh| + 1 + m))
            && CommitTrace(d, dev, g, lh, newer, |lh| + 1 + m) ==
               CommitTrace(d, dev, g, lh, newer, |lh| + 1) + RecoverTrace(e, dev, g, m)
  {
    hide CommitUpTo, RecoverUpTo;
    CommitAfterHeader(d[dev], g, lh, newer, |lh| + 1 + m);
    var tail := RecoverTrace(Swap(d, dev, CommitUpTo(d[dev], g, lh, newer, |lh| + 1)), dev, g, m);
    forall j | 0 <= j < m ensures CommitTrace(d, dev, g, lh, newer, |lh| + 1 + m)[|lh| + 1 + j] == tail[j] {
      CommitAfterHeader(d[dev], g, lh, newer, |lh| + 2 + j);
    }
  }

  /** The routines of commit in sequence, on one disk. */
  lemma {:induction false} CommitPhases(d: Disk, g: LogArea, lh: seq<nat>, newer: Disk)
    requires CanCommit(d, g, lh, newer)
    ensures var n := |lh|;
            var logged := CommitUpTo(d, g, lh, newer, n);
            var installed := CommitUpTo(d, g, lh, newer, 2 * n + 1);
            && Logged(d, g, lh, newer, n) == logged && logged.Keys == d.Keys && g.start in d
            && CommitUpTo(d, g, lh, newer, n + 1) == WithHeader(logged, g, lh)
            && CommitUpTo(d, g, lh, newer, n + 1).Keys == d.Keys
            && installed.Keys == d.Keys
            && CommitUpTo(d, g, lh, newer, 2 * n + 2) == WithHeader(installed, g, [])
  {
    LoggedShape(d, g, lh, newer, |lh|);
    CommittedDisk(d, g, lh, newer);
    assert InLog(g, g.start);
    InstalledKeys(CommitUpTo(d, g, lh, newer, |lh| + 1), g, lh, |lh|);
  }

  /** write_log then write_head, on a store. */
  lemma {:induction false} HeadWritten(d: Store, dev: nat, g: LogArea, lh: seq<nat>, newer: Disk)
    requires dev in d && CanCommit(d[dev], g, lh, newer)
    ensures var e := Swap(d, dev, Logged(d[dev], g, lh, newer, |lh|));
            && dev in e && g.start in e[dev] && e[dev].Keys == d[dev].Keys && HasLog(e[dev], g)
            && Swap(e, dev, WithHeader(e[dev], g, lh)) == Swap(d, dev, CommitUpTo(d[dev], g, lh, newer, |lh| + 1))
  {
    hide CommitUpTo, Logged;
    CommitPhases(d[dev], g, lh, newer);
    SameKeysSameLog(d[dev], Logged(d[dev], g, lh, newer, |lh|), g, lh);
    HeaderSwap(d, dev, CommitUpTo(d[dev], g, lh, newer, |lh|), g, lh);
  }

  lemma {:induction false} SameKeysSameLog(d: Disk, e: Disk, g: LogArea, lh: seq<nat>)
    requires d.Keys == e.Keys && HasLog(d, g) && ValidList(lh, d, g)
    ensures HasLog(e, g) && ValidList(lh, e, g)
  {
    forall b: nat | InLog(g, b) ensures b in e {
      assert b in d.Keys;
    }
    forall i | 0 <= i < |lh| ensures lh[i] in e {
      assert lh[i] in d.Keys;
    }
  }

  lemma {:induction false} CommitTraceNext(d: Store, dev: nat, g: LogArea, lh: seq<nat>, newer: Disk, k: nat)
    requires dev in d && CanCommit(d[dev], g, lh, newer)
    ensures CommitTrace(d, dev, g, lh, newer, k + 1) ==
            CommitTrace(d, dev, g, lh, newer, k) + [Swap(d, dev, CommitUpTo(d[dev], g, lh, newer, k + 1))]
  {
  }

  /** Every disk a commit passes through, however often recovery is then interrupted, comes up whole:
      all old before the header write, all new from it on. */
  lemma {:induction false} CommitTraceAtomic(d: Store, dev: nat, g: LogArea, lh: seq<nat>, newer: Disk, k: nat, j: nat,
                                            ks: seq<nat>)
    requires dev in d && CanCommit(d[dev], g, lh, newer)
    requires ValidDisk(d[dev], g) && g.decode(d[dev][g.start]) == [] && j < k
    ensures var e := CommitTrace(d, dev, g, lh, newer, k)[j];
            && dev in e && ValidDisk(e[dev], g)
            && Home(RecoverThrough(e[dev], g, ks), g) ==
               (if j < |lh| then Home(d[dev], g) else Overlay(Home(d[dev], g), lh, newer))
            && forall other :: other != dev && other in d ==> other in e && e[other] == d[other]
  {
    CommitAtomic(d[dev], g, lh, newer, j + 1, ks);
  }

  /** With nothing of the log area pinned, the log blocks on disk are the logical ones. */
  lemma {:induction false} LogIsClean(c: Cache, p: Pid, pinned: set<Id>, dev: nat, g: LogArea)
    requires Inv(c) && View(c, p, {}, pinned) && dev in c.disk && dev in c.logical && HasLog(c.disk[dev], g)
    requires forall b: nat :: InLog(g, b) ==> (dev, b) !in pinned
    ensures CleanLog(c, dev, g)
  {
    forall b: nat | InLog(g, b) ensures b in c.logical[dev] && c.logical[dev][b] == c.disk[dev][b] {
      assert InStore(c.disk, (dev, b));
      BehindOnlyPinned(c, p, pinned, (dev, b));
    }
  }

  lemma {:induction false} NoWrites(d: Store, dev: nat, g: LogArea, lh: seq<nat>, newer: Disk)
    requires dev in d && CanCommit(d[dev], g, lh, newer)
    ensures CommitTrace(d, dev, g, lh, newer, 0) == []
    ensures Swap(d, dev, CommitUpTo(d[dev], g, lh, newer, 0)) == d
  {
  }

  lemma {:induction false} CommittedSwap(d: Store, dev: nat, g: LogArea, lh: seq<nat>, newer: Disk)
    requires dev in d && CanCommit(d[dev], g, lh, newer)
    ensures var e := Swap(d, dev, CommitUpTo(d[dev], g, lh, newer, |lh| + 1));
            dev in e && ValidDisk(e[dev], g) && g.decode(e[dev][g.start]) == lh
              && ValidDisk(CommitUpTo(d[dev], g, lh, newer, |lh| + 1), g)
  {
    CommittedDisk(d[dev], g, lh, newer);
  }

  lemma {:induction false} RecoverNothing(d: Store, dev: nat, g: LogArea)
    requires dev in d && ValidDisk(d[dev], g)
    ensures RecoverTrace(d, dev, g, 0) == [] && Swap(d, dev, RecoverUpTo(d[dev], g, 0)) == d
  {
  }

  /** Where disk and logical disk agreed outside the logged blocks, a whole commit makes the home blocks on
      disk equal to the logical ones, which themselves have not changed. */
  lemma {:induction false} CommitMakesDurable(d: Disk, l: Disk, g: LogArea, lh: seq<nat>)
    requires CanCommit(d, g, lh, l) && CanCommit(l, g, lh, l) && d.Keys == l.Keys
    requires forall b :: b in d && !InLog(g, b) && b !in lh ==> d[b] == l[b]
    ensures Home(CommitUpTo(d, g, lh, l, CommitWrites(lh)), g) == Home(l, g)
    ensures Home(CommitUpTo(l, g, lh, l, CommitWrites(lh)), g) == Home(l, g)
  {
    hide CommitUpTo;
    CommitFinished(d, g, lh, l);
    CommitFinished(l, g, lh, l);
    assert Overlay(Home(d, g), lh, l) == Home(l, g);
    assert Overlay(Home(l, g), lh, l) == Home(l, g);
  }

  lemma {:induction false} FewerPinned(now: set<Id>, pinned: set<Id>)
    requires now <= pinned
    ensures |now| <= |pinned|
  {
    assert pinned == now + (pinned - now);
  }

  class Log {
    const dev: nat
    const start: nat
    const cap: nat
    const cache: BufferCache
    const p: Pid
    var lh: seq<nat>

    constructor (cache: BufferCache, dev: nat, start: nat, cap: nat, p: Pid)
      ensures this.cache == cache && this.dev == dev && this.start == start && this.cap == cap && this.p == p
      ensures lh == []
    {
      this.cache, this.dev, this.start, this.cap, this.p, lh := cache, dev, start, cap, p, [];
    }

    function Area(): (g: LogArea) {
      LogHeader.KernelArea(start, cap)
    }

    /** The body of the write_log loop: both reads come before the write, so a panic for want of buffers
        leaves the disk as it was. */
    method CopyToLog(dst: nat, src: nat, ghost pinned: set<Id>) returns (ok: bool)
      requires cache.Valid() && View(cache.Abs(), p, {}, pinned) && dst != src
      requires InStore(cache.disk, (dev, dst)) && InStore(cache.disk, (dev, src))
      requires InStore(cache.logical, (dev, dst)) && InStore(cache.logical, (dev, src))
      requires (dev, src) in pinned
      modifies cache
      ensures !ok ==> cache.disk == old(cache.disk) && cache.trace == old(cache.trace)
      ensures |pinned| + 2 <= cache.nbuf ==> ok
      ensures ok ==>
        && cache.Valid() && View(cache.Abs(), p, {}, pinned)
        && cache.disk == Put(old(cache.disk), (dev, dst), Get(old(cache.logical), (dev, src)))
        && cache.logical == Put(old(cache.logical), (dev, dst), Get(old(cache.logical), (dev, src)))
        && cache.trace == old(cache.trace) + [cache.disk]
    {
      hide Inv, View;
      ok := false;
      var r := cache.ReadTwo(p, (dev, dst), (dev, src), pinned);
      if r.Some? {
        var (to, from) := r.value;
        cache.Overwrite(p, to, cache.bufs[from].data, false, {to, from}, pinned);
        assert {to, from} == {from, to};
        cache.ReleaseTwo(p, from, to, pinned);
        ok := true;
      }
    }

    /** The body of the install_trans loop. After a commit the home block was pinned, and is unpinned once written. */
    method CopyFromLog(dst: nat, src: nat, recovering: bool, ghost pinned: set<Id>) returns (ok: bool)
      requires cache.Valid() && View(cache.Abs(), p, {}, pinned) && dst != src
      requires InStore(cache.disk, (dev, dst)) && InStore(cache.disk, (dev, src))
      requires InStore(cache.logical, (dev, dst)) && InStore(cache.logical, (dev, src))
      requires Get(cache.logical, (dev, src)) == Get(cache.disk, (dev, src))
      requires !recovering ==> (dev, dst) in pinned
      modifies cache
      ensures !ok ==> cache.disk == old(cache.disk) && cache.trace == old(cache.trace)
      ensures |pinned| + 2 <= cache.nbuf ==> ok
      ensures ok ==>
        && cache.Valid() && View(cache.Abs(), p, {}, if recovering then pinned else pinned - {(dev, dst)})
        && cache.disk == Put(old(cache.disk), (dev, dst), Get(old(cache.logical), (dev, src)))
        && cache.logical == Put(old(cache.logical), (dev, dst), Get(old(cache.logical), (dev, src)))
        && cache.trace == old(cache.trace) + [cache.disk]
    {
      hide Inv, View;
      ok := false;
      var r := cache.ReadTwo(p, (dev, src), (dev, dst), pinned);
      if r.Some? {
        var (from, to) := r.value;
        cache.Overwrite(p, to, cache.bufs[from].data, !recovering, {from, to}, pinned);
        cache.ReleaseTwo(p, from, to, if recovering then pinned else pinned - {(dev, dst)});
        ok := true;
      }
    }

    /** write_log, of which m writes reached the disk; ok means all of them did. */
    method WriteLog(ghost pinned: set<Id>) returns (ok: bool, ghost m: nat)
      requires cache.Valid() && View(cache.Abs(), p, {}, pinned)
      requires dev in cache.disk && HasLog(cache.disk[dev], Area()) && ValidList(lh, cache.disk[dev], Area())
      requires dev in cache.logical && forall b: nat :: b in cache.logical[dev] <==> b in cache.disk[dev]
      requires forall i :: 0 <= i < |lh| ==> (dev, lh[i]) in pinned
      modifies cache
      ensures m <= |lh| && (ok ==> m == |lh|) && (|pinned| + 2 <= cache.nbuf ==> ok)
      ensures cache.disk ==
                Swap(old(cache.disk), dev, Logged(old(cache.disk)[dev], Area(), lh, old(cache.logical)[dev], m))
      ensures cache.trace == old(cache.trace) + LogTrace(old(cache.disk), dev, Area(), lh, old(cache.logical)[dev], m)
      ensures ok ==>
        && cache.Valid() && View(cache.Abs(), p, {}, pinned)
        && cache.logical == Swap(old(cache.logical), dev,
                                 Logged(old(cache.logical)[dev], Area(), lh, old(cache.logical)[dev], m))
    {
      hide Inv, View, Put, Logged, LogTrace, Swap;
      ok := true;
      m := 0;
      ghost var g, d, l := Area(), cache.disk, cache.logical;
      LoggedNone(d, dev, g, lh, l[dev]);
      LoggedNone(l, dev, g, lh, l[dev]);
      var tail := 0;
      while tail < |lh|
        invariant tail == m <= |lh| && lh == old(lh) && cache.Valid() && View(cache.Abs(), p, {}, pinned)
        invariant cache.disk == Swap(d, dev, Logged(d[dev], g, lh, l[dev], m))
        invariant cache.logical == Swap(l, dev, Logged(l[dev], g, lh, l[dev], m))
        invariant cache.trace == old(cache.trace) + LogTrace(d, dev, g, lh, l[dev], m)
      {
        LoggedPut(d, dev, g, lh, l[dev], m);
        LoggedPut(l, dev, g, lh, l[dev], m);
        LogTraceStep(d, dev, g, lh, l[dev], m);
        ok := CopyToLog(start + tail + 1, lh[tail], pinned);
        if !ok {
          return;
        }
        tail := tail + 1;
        m := tail;
      }
    }

    /** install_trans, of which m writes reached the disk. What it copies from the log it also makes logical. */
    method InstallTrans(recovering: bool, ghost pinned: set<Id>) returns (ok: bool, ghost m: nat)
      requires cache.Valid() && View(cache.Abs(), p, {}, pinned)
      requires CleanLog(cache.Abs(), dev, Area())
      requires ValidList(lh, cache.disk[dev], Area()) && ValidList(lh, cache.logical[dev], Area())
      requires !recovering ==> forall i :: 0 <= i < |lh| ==> (dev, lh[i]) in pinned
      modifies cache
      ensures m <= |lh| && (ok ==> m == |lh|) && (|pinned| + 2 <= cache.nbuf ==> ok)
      ensures cache.disk == Swap(old(cache.disk), dev, Installed(old(cache.disk)[dev], Area(), lh, m))
      ensures cache.trace == old(cache.trace) + InstallTrace(old(cache.disk), dev, Area(), lh, m)
      ensures ok ==>
        && cache.Valid() && View(cache.Abs(), p, {}, if recovering then pinned else Unpinned(pinned, dev, lh, m))
        && cache.logical == Swap(old(cache.logical), dev, Installed(old(cache.logical)[dev], Area(), lh, m))
    {
      hide Inv, View, Put, Installed, InstallTrace, Unpinned, Swap, ValidArea, CleanLog;
      CleanHas(cache.Abs(), dev, Area());
      assert Unpinned(pinned, dev, lh, 0) == pinned by {
        UnpinnedStep(pinned, dev, lh, 0);
      }
      InstalledNone(cache.disk, dev, Area(), lh);
      InstalledNone(cache.logical, dev, Area(), lh);
      ok := true;
      m := 0;
      ghost var g, d, l := Area(), cache.disk, cache.logical;
      ghost var now := pinned;
      var tail := 0;
      while tail < |lh|
        invariant tail == m <= |lh| && lh == old(lh) && cache.Valid() && View(cache.Abs(), p, {}, now)
        invariant now == (if recovering then pinned else Unpinned(pinned, dev, lh, m)) && now <= pinned
        invariant cache.disk == Swap(d, dev, Installed(d[dev], g, lh, m))
        invariant cache.logical == Swap(l, dev, Installed(l[dev], g, lh, m))
        invariant cache.trace == old(cache.trace) + InstallTrace(d, dev, g, lh, m)
      {
        InstalledPut(d, dev, g, lh, m);
        InstalledPut(l, dev, g, lh, m);
        InstallTraceStep(d, dev, g, lh, m);
        UnpinnedStep(pinned, dev, lh, m + 1);
        FewerPinned(now, pinned);
        if !recovering {
          StillPinned(pinned, dev, lh, m);
        }
        CleanAt(old(cache.Abs()), dev, g, m);
        ok := CopyFromLog(lh[tail], start + tail + 1, recovering, now);
        if !ok {
          return;
        }
        now := if recovering then now else now - {(dev, lh[tail])};
        tail := tail + 1;
        m := tail;
      }
    }

    /** write_head: one block write, none if bread panics. */
    method WriteHead(ghost pinned: set<Id>) returns (ok: bool)
      requires cache.Valid() && View(cache.Abs(), p, {}, pinned)
      requires CleanLog(cache.Abs(), dev, Area()) && LogHeader.Fits(lh)
      modifies cache
      ensures !ok ==> cache.disk == old(cache.disk) && cache.trace == old(cache.trace)
      ensures |pinned| + 1 <= cache.nbuf ==> ok
      ensures ok ==>
        && start in old(cache.disk)[dev] && start in old(cache.logical)[dev]
        && cache.Valid() && View(cache.Abs(), p, {}, pinned)
        && cache.disk == Swap(old(cache.disk), dev, WithHeader(old(cache.disk)[dev], Area(), lh))
        && cache.logical == Swap(old(cache.logical), dev, WithHeader(old(cache.logical)[dev], Area(), lh))
        && cache.trace == old(cache.trace) + [cache.disk]
    {
      hide Inv, View, GivenUpBy;
      assert InLog(Area(), start);
      ok := false;
      var r := cache.Bread(p, (dev, start), {}, pinned);
      if r.Some? {
        var i := r.value;
        assert {} + {i} == {i};
        var hb := LogHeader.WriteHead(cache.bufs[i].data, lh);
        cache.Overwrite(p, i, hb, false, {i}, pinned);
        cache.Brelse(p, i, {i}, pinned);
        assert {i} - {i} == {};
        ok := true;
      }
    }

    /** What the log promises between operations: its blocks, and only they, are pinned on its disk; the log
        on disk is empty. */
    ghost predicate Valid(pinned: set<Id>)
      reads this, cache
    {
      && cap < WORDS && cache.Valid() && View(cache.Abs(), p, {}, pinned)
      && dev in cache.disk && dev in cache.logical && cache.logical[dev].Keys == cache.disk[dev].Keys
      && ValidDisk(cache.disk[dev], Area()) && Area().decode(cache.disk[dev][start]) == []
      && ValidList(lh, cache.disk[dev], Area())
      && (forall b: nat :: (dev, b) in pinned <==> b in lh)
    }

    /** write_log and write_head: the first |lh| + 1 writes of commit. */
    method CommitPoint(ghost pinned: set<Id>) returns (ok: bool, ghost k: nat)
      requires Valid(pinned)
      requires CanCommit(cache.disk[dev], Area(), lh, cache.logical[dev])
      requires CanCommit(cache.logical[dev], Area(), lh, cache.logical[dev])
      modifies cache
      ensures k <= |lh| + 1 && (ok ==> k == |lh| + 1) && (|pinned| + 2 <= cache.nbuf ==> ok)
      ensures cache.disk ==
                Swap(old(cache.disk), dev, CommitUpTo(old(cache.disk)[dev], Area(), lh, old(cache.logical)[dev], k))
      ensures cache.trace == old(cache.trace) +
                CommitTrace(old(cache.disk), dev, Area(), lh, old(cache.logical)[dev], k)
      ensures ok ==>
        && cache.Valid() && View(cache.Abs(), p, {}, pinned)
        && cache.logical == Swap(old(cache.logical), dev,
                                 CommitUpTo(old(cache.logical)[dev], Area(), lh, old(cache.logical)[dev], k))
    {
      hide Inv, View, CommitUpTo, CommitTrace, Swap, WithHeader, Logged, LogTrace;
      ghost var g, d, l := Area(), cache.disk, cache.logical;
      HeadWritten(d, dev, g, lh, l[dev]);
      HeadWritten(l, dev, g, lh, l[dev]);
      ok, k := WriteLog(pinned);
      CommitTraceLog(d, dev, g, lh, l[dev], k);
      if ok {
        LogIsClean(cache.Abs(), p, pinned, dev, g);
        ok := WriteHead(pinned);
        if ok {
          CommitTraceNext(d, dev, g, lh, l[dev], k);
          Append(old(cache.trace), CommitTrace(d, dev, g, lh, l[dev], k), [cache.disk]);
          k := k + 1;
        }
      }
    }

    /** install_trans and the clearing write_head, which end both commit and recovery. */
    method InstallAndClear(recovering: bool, ghost pinned: set<Id>) returns (ok: bool, ghost m: nat)
      requires cap < WORDS && cache.Valid() && View(cache.Abs(), p, {}, pinned)
      requires CleanLog(cache.Abs(), dev, Area())
      requires ValidDisk(cache.disk[dev], Area()) && Area().decode(cache.disk[dev][start]) == lh
      requires ValidDisk(cache.logical[dev], Area()) && Area().decode(cache.logical[dev][start]) == lh
      requires !recovering ==> forall i :: 0 <= i < |lh| ==> (dev, lh[i]) in pinned
      requires forall b: nat :: InLog(Area(), b) ==> (dev, b) !in pinned
      modifies this, cache
      ensures m <= |old(lh)| + 1 && (ok ==> m == |old(lh)| + 1 && lh == []) && (|pinned| + 2 <= cache.nbuf ==> ok)
      ensures cache.disk == Swap(old(cache.disk), dev, RecoverUpTo(old(cache.disk)[dev], Area(), m))
      ensures cache.trace == old(cache.trace) + RecoverTrace(old(cache.disk), dev, Area(), m)
      ensures ok ==>
        && cache.Valid()
           && View(cache.Abs(), p, {}, if recovering then pinned else Unpinned(pinned, dev, old(lh), |old(lh)|))
        && cache.logical == Swap(old(cache.logical), dev, RecoverUpTo(old(cache.logical)[dev], Area(), m))
    {
      hide Inv, View, Swap, WithHeader, Installed, InstallTrace, RecoverTrace, RecoverUpTo, Unpinned;
      ghost var g, d, l, n := Area(), cache.disk, cache.logical, |lh|;
      ghost var left := if recovering then pinned else Unpinned(pinned, dev, lh, n);
      HeadCleared(d, dev, g);
      HeadCleared(l, dev, g);
      ok, m := InstallTrans(recovering, pinned);
      RecoverTraceInstall(d, dev, g, m);
      if ok {
        UnpinnedLess(pinned, dev, lh, n);
        FewerPinned(left, pinned);
        LogIsClean(cache.Abs(), p, left, dev, g);
        lh := [];
        ok := WriteHead(left);
        if ok {
          RecoverTraceNext(d, dev, g, m);
          Append(old(cache.trace), RecoverTrace(d, dev, g, m), [cache.disk]);
          m := m + 1;
        }
      }
    }

    /** commit, of which k block writes reached the disk. The disks it passed through are exactly CommitTrace,
        so CommitTraceAtomic applies to each of them, also when it stops half-way. */
    method Commit(ghost pinned: set<Id>) returns (ok: bool, ghost k: nat)
      requires Valid(pinned)
      requires CanCommit(cache.disk[dev], Area(), lh, cache.logical[dev])
      requires CanCommit(cache.logical[dev], Area(), lh, cache.logical[dev])
      modifies this, cache
      ensures k <= CommitWrites(old(lh)) && (ok ==> k == if old(lh) == [] then 0 else CommitWrites(old(lh)))
      ensures |pinned| + 2 <= cache.nbuf ==> ok
      ensures cache.disk == Swap(old(cache.disk), dev,
                                 CommitUpTo(old(cache.disk)[dev], Area(), old(lh), old(cache.logical)[dev], k))
      ensures cache.trace == old(cache.trace) +
                CommitTrace(old(cache.disk), dev, Area(), old(lh), old(cache.logical)[dev], k)
      ensures ok ==> lh == [] && cache.Valid() && View(cache.Abs(), p, {}, Unpinned(pinned, dev, old(lh), |old(lh)|))
      ensures ok ==> cache.logical == Swap(old(cache.logical), dev,
                                           CommitUpTo(old(cache.logical)[dev], Area(), old(lh), old(cache.logical)[dev],
                                               k))
    {
      hide Inv, View, Swap, CommitUpTo, CommitTrace, RecoverTrace, RecoverUpTo, Unpinned, ValidArea, HasLog;
      ghost var g, d, l, list := Area(), cache.disk, cache.logical, lh;
      if |lh| == 0 {
        UnpinnedStep(pinned, dev, lh, 0);
        NoWrites(d, dev, g, lh, l[dev]);
        NoWrites(l, dev, g, lh, l[dev]);
        return true, 0;
      }
      ok, k := CommitPoint(pinned);
      if ok {
        ghost var d1, l1 := cache.disk, cache.logical;
        CommittedSwap(d, dev, g, lh, l[dev]);
        CommittedSwap(l, dev, g, lh, l[dev]);
        LogIsClean(cache.Abs(), p, pinned, dev, g);
        ghost var m;
        ok, m := InstallAndClear(false, pinned);
        CommitTraceTail(d, dev, g, list, l[dev], m);
        CommitTraceTail(l, dev, g, list, l[dev], m);
        Append(old(cache.trace), CommitTrace(d, dev, g, list, l[dev], k), RecoverTrace(d1, dev, g, m));
        k := k + m;
      }
    }

    /** read_head. */
    method ReadHead(ghost pinned: set<Id>) returns (ok: bool)
      requires cache.Valid() && View(cache.Abs(), p, {}, pinned)
      requires CleanLog(cache.Abs(), dev, Area()) && cap < WORDS
      requires ValidDisk(cache.disk[dev], Area())
      modifies this, cache
      ensures cache.disk == old(cache.disk) && cache.trace == old(cache.trace) && cache.logical == old(cache.logical)
      ensures |pinned| + 1 <= cache.nbuf ==> ok
      ensures ok ==> cache.Valid() && View(cache.Abs(), p, {}, pinned) && lh == Area().decode(cache.disk[dev][start])
    {
      hide Inv, View, GivenUpBy;
      assert InLog(Area(), start);
      ok := false;
      var r := cache.Bread(p, (dev, start), {}, pinned);
      if r.Some? {
        var i := r.value;
        assert {} + {i} == {i};
        lh := LogHeader.ReadHead(cache.bufs[i].data);
        cache.Brelse(p, i, {i}, pinned);
        assert {i} - {i} == {};
        ok := true;
      }
    }

    /** recover_from_log on a freshly initialised cache. The disks it passes through are exactly RecoverTrace. */
    method RecoverFromLog() returns (ok: bool, ghost k: nat)
      requires cap < WORDS && cache.Valid() && View(cache.Abs(), p, {}, {}) && cache.logical == cache.disk
      requires dev in cache.disk && ValidDisk(cache.disk[dev], Area())
      modifies this, cache
      ensures k <= |Area().decode(old(cache.disk)[dev][start])| + 1
      ensures ok ==> k == |Area().decode(old(cache.disk)[dev][start])| + 1
      ensures 2 <= cache.nbuf ==> ok
      ensures cache.disk == Swap(old(cache.disk), dev, RecoverUpTo(old(cache.disk)[dev], Area(), k))
      ensures cache.trace == old(cache.trace) + RecoverTrace(old(cache.disk), dev, Area(), k)
      ensures ok ==> cache.logical == cache.disk && lh == [] && cache.Valid() && View(cache.Abs(), p, {}, {})
    {
      hide Inv, View, RecoverTrace, RecoverUpTo;
      k := 0;
      RecoverNothing(cache.disk, dev, Area());
      ok := ReadHead({});
      if ok {
        ok, k := InstallAndClear(true, {});
      }
    }

    /** log_write of a held buffer: absorb a block already in the log, else append and pin it. The panic
        for a full log comes first, before the search. */
    method LogWrite(i: nat, ghost held: set<nat>, ghost pinned: set<Id>) returns (ok: bool)
      requires cache.Valid() && View(cache.Abs(), p, held, pinned) && i in held
      requires i < |cache.bufs| && cache.bufs[i].id.0 == dev
      requires forall b: nat :: (dev, b) in pinned <==> b in lh
      modifies this, cache
      ensures ok <==> |old(lh)| < cap
      ensures |cache.bufs| == |old(cache.bufs)| && cache.bufs[i].id == old(cache.bufs)[i].id
      ensures cache.disk == old(cache.disk) && cache.logical == old(cache.logical) && cache.trace == old(cache.trace)
      ensures !ok ==> lh == old(lh)
      ensures ok ==>
        && var b := cache.bufs[i].id.1;
        && lh == (if b in old(lh) then old(lh) else old(lh) + [b])
        && cache.Valid() && View(cache.Abs(), p, held, pinned + {(dev, b)})
        && (forall x: nat :: (dev, x) in pinned + {(dev, b)} <==> x in lh)
    {
      hide Inv, View;
      if |lh| >= cap {
        return false;
      }
      var b := cache.bufs[i].id.1;
      var k := 0;
      while k < |lh| && lh[k] != b
        invariant k <= |lh| && b !in lh[..k]
      {
        k := k + 1;
      }
      assert lh == lh[..k] + lh[k..];
      assert cache.bufs[i].id == (dev, b);
      if k == |lh| {
        PinView(cache.Abs(), p, held, pinned, i);
        cache.Bpin(p, i);
        lh := lh + [b];
      } else {
        assert pinned + {(dev, b)} == pinned;
        lh := lh[k := b];
      }
      ok := true;
    }
  }
}
