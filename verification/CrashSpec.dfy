/** The redo log of one disk (kernel/log.c) as functions on disk contents.

    The order of the block writes is what matters for crash safety, so each
    routine is described by the disk it leaves after its k-th block write. A
    crash may happen after any k. Nothing here looks inside a block: the header
    codec is part of the log area, and the kernel's own one is in LogHeader.
 */
module CrashSpec {
  import opened Blocks

  /** Where the log lives (a header block at start, then cap log blocks) and how its header is stored. */
  datatype LogArea = LogArea(start: nat, cap: nat, limit: nat,
                                 encode: (Block, seq<nat>) -> Block, decode: Block -> seq<nat>)

  predicate Storable(g: LogArea, lh: seq<nat>) {
    |lh| <= g.cap && forall i :: 0 <= i < |lh| ==> lh[i] < g.limit
  }

  /** A header that was stored is read back, whatever the block held before. */
  ghost predicate ValidArea(g: LogArea) {
    forall b, lh :: Storable(g, lh) ==> g.decode(g.encode(b, lh)) == lh
  }

  predicate InLog(g: LogArea, b: nat) {
    g.start <= b <= g.start + g.cap
  }

  /** The part of the disk the file system sees. */
  function Home(d: Disk, g: LogArea): Disk {
    map b | b in d && !InLog(g, b) :: d[b]
  }

  ghost predicate HasLog(d: Disk, g: LogArea) {
    forall b: nat :: InLog(g, b) ==> b in d
  }

  /** A list of logged block numbers that commit may meet: it fits, has no repeats, names home blocks. */
  ghost predicate ValidList(lh: seq<nat>, d: Disk, g: LogArea) {
    && |lh| <= g.cap
    && (forall i :: 0 <= i < |lh| ==> lh[i] in d && !InLog(g, lh[i]) && lh[i] < g.limit)
    && (forall i, j :: 0 <= i < j < |lh| ==> lh[i] != lh[j])
  }

  /** A disk whose on-disk header could have been left by this log. */
  ghost predicate ValidDisk(d: Disk, g: LogArea) {
    && ValidArea(g)
    && HasLog(d, g)
    && g.start in d
    && ValidList(g.decode(d[g.start]), d, g)
  }

  // ---- disks after the k-th write

  /** Log blocks 1..k filled from the new contents of the logged blocks. */
  function Logged(d: Disk, g: LogArea, lh: seq<nat>, newer: Disk, k: nat): (r: Disk)
    requires k <= |lh| && forall i :: 0 <= i < |lh| ==> lh[i] in newer
  {
    if k == 0 then d else Logged(d, g, lh, newer, k - 1)[g.start + k := newer[lh[k - 1]]]
  }

  function WithHeader(d: Disk, g: LogArea, lh: seq<nat>): (r: Disk)
    requires g.start in d
  {
    d[g.start := g.encode(d[g.start], lh)]
  }

  /** The first k log blocks copied to their home locations. */
  function Installed(d: Disk, g: LogArea, lh: seq<nat>, k: nat): (r: Disk)
    requires HasLog(d, g) && k <= |lh| <= g.cap
    ensures d.Keys <= r.Keys
  {
    if k == 0 then d else Installed(d, g, lh, k - 1)[lh[k - 1] := d[g.start + k]]
  }

  /** Recovery, stopped after k block writes (the header is cleared last). */
  function RecoverUpTo(d: Disk, g: LogArea, k: nat): (r: Disk)
    requires ValidDisk(d, g)
  {
    var lh := g.decode(d[g.start]);
    if k <= |lh| then Installed(d, g, lh, k) else WithHeader(Installed(d, g, lh, |lh|), g, [])
  }

  function Recover(d: Disk, g: LogArea): (r: Disk)
    requires ValidDisk(d, g)
  {
    RecoverUpTo(d, g, |g.decode(d[g.start])| + 1)
  }

  /** Commit of the blocks lh with contents newer, stopped after k block writes. */
  function CommitUpTo(d: Disk, g: LogArea, lh: seq<nat>, newer: Disk, k: nat): (r: Disk)
    requires ValidArea(g) && HasLog(d, g) && ValidList(lh, d, g)
    requires forall i :: 0 <= i < |lh| ==> lh[i] in newer
  {
    var n := |lh|;
    LoggedShape(d, g, lh, newer, n);
    if k <= n then Logged(d, g, lh, newer, k)
    else
      var committed := WithHeader(Logged(d, g, lh, newer, n), g, lh);
      if k <= 2 * n + 1 then Installed(committed, g, lh, k - n - 1)
      else WithHeader(Installed(committed, g, lh, n), g, [])
  }

  /** The number of block writes a whole commit performs. */
  function CommitWrites(lh: seq<nat>): nat {
    2 * |lh| + 2
  }

  // ---- what the partial disks look like

  lemma {:induction false} LoggedShape(d: Disk, g: LogArea, lh: seq<nat>, newer: Disk, k: nat)
    requires k <= |lh| <= g.cap && HasLog(d, g)
    requires forall i :: 0 <= i < |lh| ==> lh[i] in newer
    ensures var r := Logged(d, g, lh, newer, k);
            && r.Keys == d.Keys
            && (forall b :: b in d && !(g.start < b <= g.start + k) ==> r[b] == d[b])
            && (forall i :: 0 <= i < k ==> r[g.start + i + 1] == newer[lh[i]])
  {
    if k > 0 {
      LoggedShape(d, g, lh, newer, k - 1);
      assert InLog(g, g.start + k);
    }
  }

  lemma {:induction false} InstalledKeys(d: Disk, g: LogArea, lh: seq<nat>, k: nat)
    requires HasLog(d, g) && ValidList(lh, d, g) && k <= |lh|
    ensures Installed(d, g, lh, k).Keys == d.Keys
  {
    if k > 0 {
      InstalledKeys(d, g, lh, k - 1);
    }
  }

  /** Each of the first k logged blocks has its log copy; everything else is as before. */
  lemma {:induction false} InstalledAt(d: Disk, g: LogArea, lh: seq<nat>, k: nat, b: nat)
    requires HasLog(d, g) && ValidList(lh, d, g) && k <= |lh| && b in d
    ensures b in Installed(d, g, lh, k)
    ensures forall i :: 0 <= i < k && lh[i] == b ==> Installed(d, g, lh, k)[b] == d[g.start + i + 1]
    ensures (forall i :: 0 <= i < k ==> lh[i] != b) ==> Installed(d, g, lh, k)[b] == d[b]
  {
    if k > 0 {
      InstalledAt(d, g, lh, k - 1, b);
    }
  }

  // ---- recovery

  lemma {:induction false} InstalledValid(d: Disk, g: LogArea, k: nat)
    requires ValidDisk(d, g) && k <= |g.decode(d[g.start])|
    ensures var e := Installed(d, g, g.decode(d[g.start]), k);
            ValidDisk(e, g) && e.Keys == d.Keys && e[g.start] == d[g.start]
  {
    var lh := g.decode(d[g.start]);
    InstalledKeys(d, g, lh, k);
    assert InLog(g, g.start);
    InstalledAt(d, g, lh, k, g.start);
  }

  lemma {:induction false} HeaderIsNotHome(d: Disk, g: LogArea, hb: Block)
    requires HasLog(d, g)
    ensures Home(d[g.start := hb], g) == Home(d, g)
    ensures g.start in d && d[g.start := hb].Keys == d.Keys
  {
    assert InLog(g, g.start);
  }

  /** Clearing the header touches no home block and leaves an empty log. */
  lemma {:induction false} ClearedValid(d: Disk, g: LogArea)
    requires ValidArea(g) && HasLog(d, g) && g.start in d
    ensures var e := WithHeader(d, g, []);
            ValidDisk(e, g) && e.Keys == d.Keys && |g.decode(e[g.start])| == 0 && Home(e, g) == Home(d, g)
  {
    assert Storable(g, []);
    HeaderIsNotHome(d, g, g.encode(d[g.start], []));
  }

  lemma {:induction false} RecoverUpToValid(d: Disk, g: LogArea, k: nat)
    requires ValidDisk(d, g)
    ensures ValidDisk(RecoverUpTo(d, g, k), g)
    ensures RecoverUpTo(d, g, k).Keys == d.Keys
    ensures g.decode(RecoverUpTo(d, g, k)[g.start]) ==
            if k <= |g.decode(d[g.start])| then g.decode(d[g.start]) else []
  {
    var n := |g.decode(d[g.start])|;
    if k <= n {
      InstalledValid(d, g, k);
    } else {
      InstalledValid(d, g, n);
      ClearedValid(Installed(d, g, g.decode(d[g.start]), n), g);
    }
  }

  /** Block b once recovery has finished: its log copy if the header names it, else unchanged. */
  lemma {:induction false} RecoverAt(d: Disk, g: LogArea, b: nat)
    requires ValidDisk(d, g) && b in d && !InLog(g, b)
    ensures b in Recover(d, g)
    ensures var lh := g.decode(d[g.start]);
            && (forall i :: 0 <= i < |lh| && lh[i] == b ==> Recover(d, g)[b] == d[g.start + i + 1])
            && ((forall i :: 0 <= i < |lh| ==> lh[i] != b) ==> Recover(d, g)[b] == d[b])
  {
    var lh := g.decode(d[g.start]);
    InstalledAt(d, g, lh, |lh|, b);
  }

  /** Interrupting recovery after any number of writes does not change what recovery will produce. */
  lemma {:induction false} RecoverAgain(d: Disk, g: LogArea, k: nat)
    requires ValidDisk(d, g)
    ensures ValidDisk(RecoverUpTo(d, g, k), g)
    ensures Home(Recover(RecoverUpTo(d, g, k), g), g) == Home(Recover(d, g), g)
  {
    var lh := g.decode(d[g.start]);
    var e := RecoverUpTo(d, g, k);
    RecoverUpToValid(d, g, k);
    RecoverUpToValid(d, g, |lh| + 1);
    RecoverUpToValid(e, g, |g.decode(e[g.start])| + 1);
    forall b | b in d && !InLog(g, b) ensures Recover(e, g)[b] == Recover(d, g)[b] {
      RecoverAgainAt(d, g, k, b);
    }
  }

  /** Past its last write recovery is done. */
  lemma {:induction false} RecoverDone(d: Disk, g: LogArea, k: nat)
    requires ValidDisk(d, g) && k > |g.decode(d[g.start])|
    ensures RecoverUpTo(d, g, k) == Recover(d, g)
  {
    hide Installed;
  }

  /** Recovery does not write the log blocks, and before its end not those home blocks that the header does not name. */
  lemma {:induction false} RecoverKeeps(d: Disk, g: LogArea, k: nat, b: nat)
    requires ValidDisk(d, g) && k <= |g.decode(d[g.start])| && b in d
    requires forall i :: 0 <= i < |g.decode(d[g.start])| ==> g.decode(d[g.start])[i] != b
    ensures b in RecoverUpTo(d, g, k) && RecoverUpTo(d, g, k)[b] == d[b]
  {
    hide ValidArea;
    InstalledAt(d, g, g.decode(d[g.start]), k, b);
  }

  lemma {:induction false} RecoverAgainAt(d: Disk, g: LogArea, k: nat, b: nat)
    requires ValidDisk(d, g) && b in d && !InLog(g, b)
    requires ValidDisk(RecoverUpTo(d, g, k), g) && b in RecoverUpTo(d, g, k)
    ensures b in Recover(RecoverUpTo(d, g, k), g) && b in Recover(d, g)
    ensures Recover(RecoverUpTo(d, g, k), g)[b] == Recover(d, g)[b]
  {
    hide RecoverUpTo, Recover, ValidArea, HasLog;
    var lh := g.decode(d[g.start]);
    RecoverUpToValid(d, g, k);
    RecoverAt(d, g, b);
    RecoverAt(RecoverUpTo(d, g, k), g, b);
    if k > |lh| {
      RecoverDone(d, g, k);
    } else if i :| 0 <= i < |lh| && lh[i] == b {
      LogBlock(d, g, i);
      RecoverKeeps(d, g, k, g.start + i + 1);
    } else {
      RecoverKeeps(d, g, k, b);
    }
  }

  /** A log block in use is on the disk and is none of the listed blocks. */
  lemma {:induction false} LogBlock(d: Disk, g: LogArea, i: nat)
    requires ValidDisk(d, g) && i < |g.decode(d[g.start])|
    ensures g.start + i + 1 in d
    ensures forall j :: 0 <= j < |g.decode(d[g.start])| ==> g.decode(d[g.start])[j] != g.start + i + 1
  {
    hide ValidArea;
    assert InLog(g, g.start + i + 1);
  }

  /** Boot after boot: recovery crashes after ks[0] writes, the next one after ks[1], ..., the last finishes. */
  ghost function RecoverThrough(d: Disk, g: LogArea, ks: seq<nat>): (r: Disk)
    requires ValidDisk(d, g)
    decreases |ks|
  {
    if ks == [] then Recover(d, g)
    else
      RecoverUpToValid(d, g, ks[0]);
      RecoverThrough(RecoverUpTo(d, g, ks[0]), g, ks[1..])
  }

  /** Any number of crashes inside recovery is as good as none. */
  lemma {:induction false} RecoverThroughCrashes(d: Disk, g: LogArea, ks: seq<nat>)
    requires ValidDisk(d, g)
    ensures Home(RecoverThrough(d, g, ks), g) == Home(Recover(d, g), g)
    ensures ValidDisk(RecoverThrough(d, g, ks), g)
    ensures |g.decode(RecoverThrough(d, g, ks)[g.start])| == 0
    decreases |ks|
  {
    if ks == [] {
      RecoverUpToValid(d, g, |g.decode(d[g.start])| + 1);
    } else {
      RecoverAgain(d, g, ks[0]);
      RecoverThroughCrashes(RecoverUpTo(d, g, ks[0]), g, ks[1..]);
    }
  }

  // ---- commit

  /** The home blocks after a transaction that rewrote the blocks lh with the contents newer. */
  function Overlay(h: Disk, lh: seq<nat>, newer: Disk): (r: Disk)
    requires forall i :: 0 <= i < |lh| ==> lh[i] in newer
  {
    map b | b in h :: if b in lh then newer[b] else h[b]
  }

  /** Before the header write, recovery sees an empty log over untouched home blocks. */
  lemma {:induction false} CommitBeforeHeader(d: Disk, g: LogArea, lh: seq<nat>, newer: Disk, k: nat)
    requires ValidDisk(d, g) && |g.decode(d[g.start])| == 0
    requires ValidList(lh, d, g) && (forall i :: 0 <= i < |lh| ==> lh[i] in newer)
    requires k <= |lh|
    ensures var e := CommitUpTo(d, g, lh, newer, k);
            ValidDisk(e, g) && Home(Recover(e, g), g) == Home(d, g)
  {
    var e := CommitUpTo(d, g, lh, newer, k);
    LoggedShape(d, g, lh, newer, k);
    assert InLog(g, g.start);
    assert g.decode(e[g.start]) == [];
    RecoverUpToValid(e, g, 1);
    forall b | b in d && !InLog(g, b) ensures Recover(e, g)[b] == d[b] {
      RecoverAt(e, g, b);
    }
  }

  lemma {:induction false} CommittedDisk(d: Disk, g: LogArea, lh: seq<nat>, newer: Disk)
    requires ValidArea(g) && HasLog(d, g)
    requires ValidList(lh, d, g) && (forall i :: 0 <= i < |lh| ==> lh[i] in newer)
    ensures var e := CommitUpTo(d, g, lh, newer, |lh| + 1);
            && ValidDisk(e, g) && e.Keys == d.Keys && g.decode(e[g.start]) == lh
            && (forall i :: 0 <= i < |lh| ==> e[g.start + i + 1] == newer[lh[i]])
            && (forall b :: b in d && !InLog(g, b) ==> e[b] == d[b])
  {
    LoggedShape(d, g, lh, newer, |lh|);
    assert InLog(g, g.start);
    assert Storable(g, lh);
  }

  /** Once the header is on disk, recovery produces the whole transaction. */
  lemma {:induction false} CommitAtHeader(d: Disk, g: LogArea, lh: seq<nat>, newer: Disk)
    requires ValidArea(g) && HasLog(d, g)
    requires ValidList(lh, d, g) && (forall i :: 0 <= i < |lh| ==> lh[i] in newer)
    ensures var e := CommitUpTo(d, g, lh, newer, |lh| + 1);
            ValidDisk(e, g) && Home(Recover(e, g), g) == Overlay(Home(d, g), lh, newer)
  {
    hide CommitUpTo, RecoverUpTo, ValidArea, HasLog;
    var e := CommitUpTo(d, g, lh, newer, |lh| + 1);
    CommittedDisk(d, g, lh, newer);
    RecoverUpToValid(e, g, |lh| + 1);
    forall b | b in d && !InLog(g, b) ensures Recover(e, g)[b] == if b in lh then newer[b] else d[b] {
      RecoverAt(e, g, b);
    }
  }

  /** The install phase of commit writes exactly what recovery would write. */
  lemma {:induction false} CommitAfterHeader(d: Disk, g: LogArea, lh: seq<nat>, newer: Disk, k: nat)
    requires ValidArea(g) && HasLog(d, g)
    requires ValidList(lh, d, g) && (forall i :: 0 <= i < |lh| ==> lh[i] in newer)
    requires |lh| < k
    ensures var e := CommitUpTo(d, g, lh, newer, |lh| + 1);
            ValidDisk(e, g) && CommitUpTo(d, g, lh, newer, k) == RecoverUpTo(e, g, k - |lh| - 1)
  {
    CommittedDisk(d, g, lh, newer);
  }

  /** Crash atomicity of one disk: a crash after any k block writes of commit, followed by any number
      of crashes inside recovery, leaves the whole old or the whole new contents, and which of the two
      depends only on whether the header had been written. */
  lemma {:induction false} CommitAtomic(d: Disk, g: LogArea, lh: seq<nat>, newer: Disk, k: nat, ks: seq<nat>)
    requires ValidDisk(d, g) && |g.decode(d[g.start])| == 0
    requires ValidList(lh, d, g) && (forall i :: 0 <= i < |lh| ==> lh[i] in newer)
    ensures var e := CommitUpTo(d, g, lh, newer, k);
            && ValidDisk(e, g)
            && Home(RecoverThrough(e, g, ks), g) ==
               if k <= |lh| then Home(d, g) else Overlay(Home(d, g), lh, newer)
  {
    hide CommitUpTo, RecoverUpTo, Recover, RecoverThrough;
    if k <= |lh| {
      CommitBeforeHeader(d, g, lh, newer, k);
    } else {
      CommitAfterHeader(d, g, lh, newer, k);
      CommitAtHeader(d, g, lh, newer);
      RecoverAgain(CommitUpTo(d, g, lh, newer, |lh| + 1), g, k - |lh| - 1);
    }
    RecoverThroughCrashes(CommitUpTo(d, g, lh, newer, k), g, ks);
  }

  /** A finished commit has an empty log and the new contents in place, with no recovery needed. */
  lemma {:induction false} CommitFinished(d: Disk, g: LogArea, lh: seq<nat>, newer: Disk)
    requires ValidArea(g) && HasLog(d, g)
    requires ValidList(lh, d, g) && (forall i :: 0 <= i < |lh| ==> lh[i] in newer)
    ensures var e := CommitUpTo(d, g, lh, newer, CommitWrites(lh));
            && ValidDisk(e, g) && |g.decode(e[g.start])| == 0
            && Home(e, g) == Overlay(Home(d, g), lh, newer)
  {
    CommitAfterHeader(d, g, lh, newer, CommitWrites(lh));
    CommitAtHeader(d, g, lh, newer);
    RecoverUpToValid(CommitUpTo(d, g, lh, newer, |lh| + 1), g, |lh| + 1);
  }
}
