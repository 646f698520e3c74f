/** kernel/bio.c over its index-linked LRU list; every operation is proved to be steps of CacheSpec. */
module BufferCache {
  import opened Blocks
  import opened CacheSpec
  import opened Counting
  import opened Ring

  lemma {:induction false} WithoutAt(s: seq<nat>, m: nat)
    requires NoRepeats(s) && m < |s|
    ensures Without(s, s[m]) == RemoveAt(s, m)
  {
    if m > 0 {
      var rest := s[1..];
      WithoutAt(rest, m - 1);
      assert rest[m - 1] == s[m] && s[0] != s[m];
      assert RemoveAt(s, m) == [s[0]] + RemoveAt(rest, m - 1);
    } else {
      assert RemoveAt(s, 0) == s[1..];
    }
  }

  // ---- what one process working alone sees

  ghost predicate ViewAt(b: Buf, u: Use, p: Pid, held: bool, pinned: set<Id>) {
    && u.leaving == {}
    && (if held then b.holder == Some(p) && b.valid && u.refs == {p} else b.holder == None && u.refs == {})
    && u.pins == if b.id in pinned then 1 else 0
  }

  ghost predicate Loaded(c: Cache, id: Id) {
    exists i :: 0 <= i < |c.bufs| && c.bufs[i].id == id && c.bufs[i].valid
  }

  /** The buffers in held are locked by p and loaded, the blocks in pinned are cached and pinned once, and
      nobody uses anything else. */
  ghost predicate View(c: Cache, p: Pid, held: set<nat>, pinned: set<Id>) {
    && |c.uses| == |c.bufs|
    && (forall i :: i in held ==> i < |c.bufs|)
    && (forall i: nat :: i < |c.bufs| ==> ViewAt(c.bufs[i], c.uses[i], p, i in held, pinned))
    && (forall id :: id in pinned ==> Loaded(c, id))
  }

  lemma {:induction false} StaysLoaded(c: Cache, d: Cache, id: Id)
    requires Loaded(c, id) && |c.bufs| == |d.bufs|
    requires forall i :: 0 <= i < |c.bufs| && c.bufs[i].valid && c.bufs[i].id == id ==>
               d.bufs[i].id == c.bufs[i].id && d.bufs[i].valid
    ensures Loaded(d, id)
  {
    var i :| 0 <= i < |c.bufs| && c.bufs[i].id == id && c.bufs[i].valid;
    assert d.bufs[i].id == id;
  }

  /** bget leaves the other buffers alone and does not evict a pinned block. */
  lemma {:induction false} TakeView(c: Cache, p: Pid, held: set<nat>, pinned: set<Id>, id: Id, i: nat)
    requires Inv(c) && View(c, p, held, pinned) && Enabled(c, Take(p, id, i))
    requires forall j :: j in held ==> c.bufs[j].id != id
    ensures var d := Next(c, Take(p, id, i));
            && i !in held && d.bufs[i].holder == None && d.uses[i] == Use({p}, {}, if id in pinned then 1 else 0)
            && (forall q :: q in pinned ==> Loaded(d, q))
  {
    assert CountedAt(c.bufs[i], c.uses[i]);
    assert ViewAt(c.bufs[i], c.uses[i], p, i in held, pinned);
    var d := Next(c, Take(p, id, i));
    forall q | q in pinned ensures Loaded(d, q) {
      StaysLoaded(c, d, q);
    }
    assert id in pinned ==> Loaded(c, id);
  }

  /** Buffers that are held, or hold one of the pinned blocks, are no more than there are such. */
  lemma {:induction false} CountUsed(bufs: seq<Buf>, held: set<nat>, pinned: set<Id>, k: nat)
    requires k <= |bufs| && (forall i: nat :: i < k ==> i in held || bufs[i].id in pinned)
    requires forall i: nat, j: nat :: i < j < k && bufs[i].id in pinned ==> bufs[i].id != bufs[j].id
    ensures k <= |held| + |pinned|
  {
    if k > 0 {
      var last := k - 1;
      if last in held {
        CountUsed(bufs, held - {last}, pinned, last);
      } else {
        CountUsed(bufs, held, pinned - {bufs[last].id}, last);
      }
    }
  }

  /** With more buffers than are held or pinned, one is unused. */
  lemma {:induction false} RoomLeft(c: Cache, p: Pid, held: set<nat>, pinned: set<Id>)
    requires Inv(c) && View(c, p, held, pinned) && |held| + |pinned| < |c.bufs|
    ensures exists i :: 0 <= i < |c.bufs| && c.bufs[i].refcnt == 0
  {
    if forall i :: 0 <= i < |c.bufs| ==> c.bufs[i].refcnt > 0 {
      forall i: nat | i < |c.bufs| ensures i in held || c.bufs[i].id in pinned {
        assert CountedAt(c.bufs[i], c.uses[i]) && ViewAt(c.bufs[i], c.uses[i], p, i in held, pinned);
      }
      forall i: nat, j: nat | i < j < |c.bufs| && c.bufs[i].id in pinned ensures c.bufs[i].id != c.bufs[j].id {
        PinnedOnce(c, pinned, i, j);
      }
      CountUsed(c.bufs, held, pinned, |c.bufs|);
    }
  }

  lemma {:induction false} PinnedOnce(c: Cache, pinned: set<Id>, i: nat, j: nat)
    requires Inv(c) && i < j < |c.bufs| && c.bufs[i].id in pinned && forall id :: id in pinned ==> Loaded(c, id)
    ensures c.bufs[i].id != c.bufs[j].id
  {
    assert Loaded(c, c.bufs[i].id);
  }

  /** The state bread leaves. */
  function Read(c: Cache, p: Pid, id: Id, i: nat): (d: Cache)
    requires |c.uses| == |c.bufs| && Enabled(c, Take(p, id, i))
    requires var t := Next(c, Take(p, id, i));
             t.uses[i].refs == {p} && t.uses[i].leaving == {} && t.bufs[i].holder == None
  {
    var locked := Next(Next(c, Take(p, id, i)), Lock(p, i));
    if locked.bufs[i].valid then locked else Next(locked, Load(p, i))
  }

  /** brelse took the cache from c to d: the steps Unlock and Drop. */
  ghost predicate GivenUpBy(c: Cache, p: Pid, i: nat, d: Cache) {
    && |c.uses| == |c.bufs| && Enabled(c, Unlock(p, i))
    && var m := Next(c, Unlock(p, i));
       |m.uses| == |m.bufs| && Enabled(m, Drop(p, i)) && d == Next(m, Drop(p, i))
  }

  lemma {:induction false} SizedView(c: Cache, p: Pid, held: set<nat>, pinned: set<Id>)
    requires View(c, p, held, pinned)
    ensures |c.uses| == |c.bufs|
  {
  }

  lemma {:induction false} HeldIn(c: Cache, p: Pid, held: set<nat>, pinned: set<Id>, i: nat)
    requires View(c, p, held, pinned) && i in held
    ensures Holds(c, p, i) && forall j :: j in held ==> j < |c.bufs|
  {
    assert ViewAt(c.bufs[i], c.uses[i], p, true, pinned);
  }

  /** A process that does not hold a block has no buffer of it. */
  lemma {:induction false} NotMine(c: Cache, p: Pid, held: set<nat>, pinned: set<Id>, id: Id)
    requires View(c, p, held, pinned) && Inv(c) && forall j :: j in held && j < |c.bufs| ==> c.bufs[j].id != id
    ensures forall i :: 0 <= i < |c.bufs| && c.bufs[i].id == id ==> p !in c.uses[i].refs
  {
    forall i | 0 <= i < |c.bufs| && c.bufs[i].id == id ensures p !in c.uses[i].refs {
      assert ViewAt(c.bufs[i], c.uses[i], p, i in held, pinned);
    }
  }

  lemma {:induction false} ReadIs(c: Cache, p: Pid, id: Id, i: nat)
    requires Inv(c) && Enabled(c, Take(p, id, i))
    requires var t := Next(c, Take(p, id, i));
             t.uses[i].refs == {p} && t.uses[i].leaving == {} && t.bufs[i].holder == None
    ensures var d := Read(c, p, id, i);
            && |d.bufs| == |c.bufs| && i < |d.bufs| && d.bufs[i].id == id && d.bufs[i].valid && d.logical == c.logical
            && InStore(d.logical, id)
  {
    hide Permutation, Counted, Unique, Coherent, Protected;
  }

  lemma {:induction false} ShowsLogical(c: Cache, id: Id, i: nat)
    requires Inv(c) && i < |c.bufs| && c.bufs[i].valid && c.bufs[i].id == id && InStore(c.logical, id)
    ensures c.bufs[i].data == Get(c.logical, id)
  {
  }

  lemma {:induction false} ReadView(c: Cache, p: Pid, held: set<nat>, pinned: set<Id>, id: Id, i: nat)
    requires Inv(c) && View(c, p, held, pinned) && Enabled(c, Take(p, id, i))
    requires var t := Next(c, Take(p, id, i));
             && i !in held && t.bufs[i].holder == None && t.uses[i] == Use({p}, {}, if id in pinned then 1 else 0)
             && (forall q :: q in pinned ==> Loaded(t, q))
    ensures var d := Read(c, p, id, i);
            View(d, p, held + {i}, pinned) && (forall j :: j in held ==> d.bufs[j] == c.bufs[j])
  {
    hide Permutation, Coherent, Protected, Unique, Counted, Cached, Victim;
    var t := Next(c, Take(p, id, i));
    var d := Read(c, p, id, i);
    forall q | q in pinned ensures Loaded(d, q) {
      StaysLoaded(t, d, q);
    }
    forall j: nat | j < |d.bufs| ensures ViewAt(d.bufs[j], d.uses[j], p, j in held + {i}, pinned) {
      assert ViewAt(c.bufs[j], c.uses[j], p, j in held, pinned);
    }
  }

  lemma {:induction false} ReleaseView(c: Cache, p: Pid, held: set<nat>, pinned: set<Id>, i: nat)
    requires Inv(c) && View(c, p, held, pinned) && i in held
    requires c.bufs[i].id in pinned || Clean(c, i)
    ensures Enabled(c, Unlock(p, i)) && |Next(c, Unlock(p, i)).uses| == |Next(c, Unlock(p, i)).bufs|
    ensures Enabled(Next(c, Unlock(p, i)), Drop(p, i))
    ensures View(Next(Next(c, Unlock(p, i)), Drop(p, i)), p, held - {i}, pinned)
  {
    hide Permutation, Coherent, Protected, Unique, Known, Without;
    assert CountedAt(c.bufs[i], c.uses[i]);
    assert ViewAt(c.bufs[i], c.uses[i], p, true, pinned);
    var d := Next(Next(c, Unlock(p, i)), Drop(p, i));
    forall q | q in pinned ensures Loaded(d, q) {
      StaysLoaded(c, d, q);
    }
    forall j: nat | j < |d.bufs| ensures ViewAt(d.bufs[j], d.uses[j], p, j in held - {i}, pinned) {
      assert ViewAt(c.bufs[j], c.uses[j], p, j in held, pinned);
    }
  }

  /** Changing and writing a held buffer is invisible to the view; afterwards the buffer is clean. */
  lemma {:induction false} StoreView(c: Cache, p: Pid, held: set<nat>, pinned: set<Id>, i: nat, b: Block)
    requires Inv(c) && View(c, p, held, pinned) && i in held && InStore(c.logical, c.bufs[i].id)
    ensures Enabled(c, Modify(p, i, c.bufs[i].id, b))
    ensures var d := Next(c, Modify(p, i, c.bufs[i].id, b));
            && |d.uses| == |d.bufs| && Enabled(d, Write(p, i)) && View(d, p, held, pinned)
            && View(Next(d, Write(p, i)), p, held, pinned) && Clean(Next(d, Write(p, i)), i)
            && (forall j :: j in held - {i} && Clean(c, j) ==> Clean(Next(d, Write(p, i)), j))
  {
    hide Permutation, Counted, Coherent, Protected;
    assert ViewAt(c.bufs[i], c.uses[i], p, true, pinned);
    var d := Next(c, Modify(p, i, c.bufs[i].id, b));
    var e := Next(d, Write(p, i));
    assert 0 !in c.disk && InStore(c.disk, c.bufs[i].id);
    forall j | j in held - {i} && Clean(c, j) ensures Clean(e, j) {
      assert c.bufs[j].id != c.bufs[i].id;
    }
    forall q | q in pinned ensures Loaded(d, q) && Loaded(e, q) {
      StaysLoaded(c, d, q);
      StaysLoaded(c, e, q);
    }
    forall j: nat | j < |d.bufs| ensures ViewAt(d.bufs[j], d.uses[j], p, j in held, pinned) {
      assert ViewAt(c.bufs[j], c.uses[j], p, j in held, pinned);
    }
  }

  lemma {:induction false} UnpinView(c: Cache, p: Pid, held: set<nat>, pinned: set<Id>, i: nat)
    requires Inv(c) && View(c, p, held, pinned) && i in held && c.bufs[i].id in pinned && Clean(c, i)
    ensures Enabled(c, Unpin(p, i))
    ensures View(Next(c, Unpin(p, i)), p, held, pinned - {c.bufs[i].id})
    ensures forall j :: j in held && Clean(c, j) ==> Clean(Next(c, Unpin(p, i)), j)
  {
    hide Permutation, Coherent, Protected;
    var id := c.bufs[i].id;
    assert CountedAt(c.bufs[i], c.uses[i]);
    assert ViewAt(c.bufs[i], c.uses[i], p, true, pinned);
    var d := Next(c, Unpin(p, i));
    forall q | q in pinned - {id} ensures Loaded(d, q) {
      StaysLoaded(c, d, q);
    }
    forall j: nat | j < |d.bufs| ensures ViewAt(d.bufs[j], d.uses[j], p, j in held, pinned - {id}) {
      assert ViewAt(c.bufs[j], c.uses[j], p, j in held, pinned);
    }
  }

  lemma {:induction false} PinView(c: Cache, p: Pid, held: set<nat>, pinned: set<Id>, i: nat)
    requires Inv(c) && View(c, p, held, pinned) && i in held && c.bufs[i].id !in pinned
    ensures Enabled(c, Pin(p, i))
    ensures View(Next(c, Pin(p, i)), p, held, pinned + {c.bufs[i].id})
  {
    var id := c.bufs[i].id;
    assert InStore(c.disk, id) by {
      assert ViewAt(c.bufs[i], c.uses[i], p, true, pinned);
      assert CountedAt(c.bufs[i], c.uses[i]);
    }
    var d := Next(c, Pin(p, i));
    forall q | q in pinned + {id} ensures Loaded(d, q) {
      if q == id {
        assert d.bufs[i].id == id && d.bufs[i].valid;
      } else {
        StaysLoaded(c, d, q);
      }
    }
    forall j: nat | j < |d.bufs| ensures ViewAt(d.bufs[j], d.uses[j], p, j in held, pinned + {id}) {
      assert ViewAt(c.bufs[j], c.uses[j], p, j in held, pinned);
    }
  }

  /** With nothing held, the disk is behind the logical disk only at pinned blocks. */
  lemma {:induction false} BehindOnlyPinned(c: Cache, p: Pid, pinned: set<Id>, id: Id)
    requires Inv(c) && View(c, p, {}, pinned) && InStore(c.disk, id) && id !in pinned
    ensures InStore(c.logical, id) && Get(c.logical, id) == Get(c.disk, id)
  {
  }

  class BufferCache {
    const nbuf: nat
    var bufs: seq<Buf>
    var next: seq<nat>
    var prev: seq<nat>
    var disk: Store
    ghost var lru: seq<nat>
    ghost var uses: seq<Use>
    ghost var logical: Store
    /** Every disk there has been since this cache was set up, oldest first: the places a crash can fall. */
    ghost var trace: seq<Store>

    ghost function Abs(): (c: Cache)
      reads this
    {
      Cache(bufs, lru, uses, disk, logical)
    }

    ghost predicate Valid()
      reads this
    {
      && |bufs| == nbuf && Linked(next, prev, nbuf, lru) && Inv(Abs())
    }

    /** binit. */
    constructor (nbuf: nat, disk: Store)
      requires 0 !in disk
      ensures Valid() && Abs() == Fresh(nbuf, disk) && trace == []
      ensures this.nbuf == nbuf
    {
      this.nbuf := nbuf;
      this.disk := disk;
      logical := disk;
      trace := [];
      bufs := seq(nbuf, _ => Buf(false, (0, 0), 0, ZERO_BLOCK, None));
      uses := seq(nbuf, _ => Use({}, {}, 0));
      var n: seq<nat> := seq(nbuf + 1, _ => nbuf);
      var p: seq<nat> := seq(nbuf + 1, _ => nbuf);
      ghost var order: seq<nat> := [];
      for b := 0 to nbuf
        invariant order == seq(b, i requires 0 <= i < b => b - 1 - i)
        invariant Linked(n, p, nbuf, order)
      {
        PushFrontLinks(n, p, nbuf, order, b);
        var first := n[nbuf];
        n := n[b := first];
        p := p[b := nbuf];
        p := p[first := b];
        n := n[nbuf := b];
        order := [b] + order;
      }
      next := n;
      prev := p;
      lru := order;
      FreshInv(nbuf, disk);
    }

    /** The forward scan of bget: is the block cached? */
    method FindCached(id: Id) returns (r: Option<nat>)
      requires Valid()
      ensures r.Some? ==> Hit(Abs(), id, r.value)
      ensures r.None? ==> !Cached(Abs(), id)
    {
      ghost var k := 1;
      assert next[At(nbuf, lru, 0)] == At(nbuf, lru, 1);
      var b := next[nbuf];
      while b != nbuf
        invariant 1 <= k <= nbuf + 1 && b == At(nbuf, lru, k)
        invariant forall j :: 0 <= j < k - 1 ==> bufs[lru[j]].id != id
        decreases nbuf + 1 - k
      {
        if bufs[b].id == id {
          return Some(b);
        }
        assert next[At(nbuf, lru, k)] == At(nbuf, lru, k + 1);
        b := next[b];
        k := k + 1;
      }
      forall i: nat | i < nbuf ensures bufs[i].id != id {
        assert i in lru;
        var j :| 0 <= j < nbuf && lru[j] == i;
      }
      r := None;
    }

    /** The backward scan of bget: the least recently used buffer nobody refers to. */
    method FindVictim() returns (r: Option<nat>)
      requires Valid()
      ensures r.Some? ==> Victim(Abs(), r.value)
      ensures r.None? ==> forall i :: 0 <= i < nbuf ==> bufs[i].refcnt > 0
    {
      ghost var k := nbuf;
      assert prev[At(nbuf, lru, nbuf + 1)] == At(nbuf, lru, nbuf);
      var b := prev[nbuf];
      while b != nbuf
        invariant 0 <= k <= nbuf && b == At(nbuf, lru, k)
        invariant forall j :: k <= j < nbuf ==> bufs[lru[j]].refcnt > 0
        decreases k
      {
        if bufs[b].refcnt == 0 {
          assert Abs().lru[k - 1] == b;
          return Some(b);
        }
        assert prev[At(nbuf, lru, k - 1 + 1)] == At(nbuf, lru, k - 1);
        b := prev[b];
        k := k - 1;
      }
      forall i: nat | i < nbuf ensures bufs[i].refcnt > 0 {
        assert i in lru;
        var j :| 0 <= j < nbuf && lru[j] == i;
      }
      r := None;
    }

    /** bget under bcache.lock: find the block, else recycle the least recently used unused buffer.
        None is the panic for want of an unused buffer. */
    method Bget(p: Pid, id: Id) returns (r: Option<nat>)
      requires Valid() && InStore(disk, id)
      requires forall i :: 0 <= i < nbuf && bufs[i].id == id ==> p !in uses[i].refs
      modifies this`bufs, this`uses
      ensures r.Some? ==> Enabled(old(Abs()), Take(p, id, r.value)) && Valid()
                          && Abs() == Next(old(Abs()), Take(p, id, r.value))
      ensures r.None? <==> !Cached(old(Abs()), id) && forall i :: 0 <= i < nbuf ==> old(bufs)[i].refcnt > 0
      ensures r.None? ==> unchanged(this)
    {
      r := FindCached(id);
      if r.Some? {
        StepInv(Abs(), Take(p, id, r.value));
        bufs := bufs[r.value := bufs[r.value].(refcnt := bufs[r.value].refcnt + 1)];
      } else {
        r := FindVictim();
        if r.None? {
          return;
        }
        StepInv(Abs(), Take(p, id, r.value));
        bufs := bufs[r.value := bufs[r.value].(valid := false, id := id, refcnt := 1)];
      }
      uses := uses[r.value := uses[r.value].(refs := uses[r.value].refs + {p})];
    }

    method Acquire(p: Pid, i: nat)
      requires Valid() && Enabled(Abs(), Lock(p, i))
      modifies this`bufs
      ensures Valid() && Abs() == Next(old(Abs()), Lock(p, i))
    {
      StepInv(Abs(), Lock(p, i));
      bufs := bufs[i := bufs[i].(holder := Some(p))];
    }

    /** The disk read of bread. */
    method Fill(p: Pid, i: nat)
      requires Valid() && Enabled(Abs(), Load(p, i))
      modifies this`bufs
      ensures Valid() && Abs() == Next(old(Abs()), Load(p, i))
    {
      StepInv(Abs(), Load(p, i));
      bufs := bufs[i := bufs[i].(data := Get(disk, bufs[i].id), valid := true)];
    }

    method SetData(p: Pid, i: nat, b: Block)
      requires Valid() && Holds(Abs(), p, i) && Enabled(Abs(), Modify(p, i, bufs[i].id, b))
      modifies this`bufs, this`logical
      ensures Valid() && Abs() == Next(old(Abs()), Modify(p, i, old(bufs)[i].id, b))
    {
      StepInv(Abs(), Modify(p, i, bufs[i].id, b));
      logical := Put(logical, bufs[i].id, b);
      bufs := bufs[i := bufs[i].(data := b)];
    }

    method Bwrite(p: Pid, i: nat)
      requires Valid() && Enabled(Abs(), Write(p, i))
      modifies this`disk, this`trace
      ensures Valid() && Abs() == Next(old(Abs()), Write(p, i))
      ensures trace == old(trace) + [disk]
    {
      StepInv(Abs(), Write(p, i));
      disk := Put(disk, bufs[i].id, bufs[i].data);
      trace := trace + [disk];
    }

    method Bpin(p: Pid, i: nat)
      requires Valid() && Enabled(Abs(), Pin(p, i))
      modifies this`bufs, this`uses
      ensures Valid() && Abs() == Next(old(Abs()), Pin(p, i))
    {
      StepInv(Abs(), Pin(p, i));
      bufs := bufs[i := bufs[i].(refcnt := bufs[i].refcnt + 1)];
      uses := uses[i := uses[i].(pins := uses[i].pins + 1)];
    }

    method Bunpin(p: Pid, i: nat)
      requires Valid() && Enabled(Abs(), Unpin(p, i))
      modifies this`bufs, this`uses
      ensures Valid() && Abs() == Next(old(Abs()), Unpin(p, i))
    {
      StepInv(Abs(), Unpin(p, i));
      bufs := bufs[i := bufs[i].(refcnt := bufs[i].refcnt - 1)];
      uses := uses[i := uses[i].(pins := uses[i].pins - 1)];
    }

    /** releasesleep inside brelse. */
    method Release(p: Pid, i: nat)
      requires Valid() && Enabled(Abs(), Unlock(p, i))
      modifies this`bufs, this`uses
      ensures Valid() && Abs() == Next(old(Abs()), Unlock(p, i))
    {
      StepInv(Abs(), Unlock(p, i));
      bufs := bufs[i := bufs[i].(holder := None)];
      uses := uses[i := uses[i].(leaving := uses[i].leaving + {p})];
    }

    /** The bcache.lock section of brelse: the last user moves the buffer to the front of the list. */
    method PutBack(p: Pid, i: nat)
      requires Valid() && Enabled(Abs(), Drop(p, i))
      modifies this`bufs, this`uses, this`lru, this`next, this`prev
      ensures Valid() && Abs() == Next(old(Abs()), Drop(p, i))
    {
      StepInv(Abs(), Drop(p, i));
      bufs := bufs[i := bufs[i].(refcnt := bufs[i].refcnt - 1)];
      uses := uses[i := uses[i].(refs := uses[i].refs - {p}, leaving := uses[i].leaving - {p})];
      if bufs[i].refcnt == 0 {
        MoveToFront(i);
      }
    }

    method MoveToFront(i: nat)
      requires Linked(next, prev, nbuf, lru) && i in lru
      modifies this`lru, this`next, this`prev
      ensures Linked(next, prev, nbuf, lru) && lru == [i] + Without(old(lru), i)
    {
      ghost var m :| 0 <= m < |lru| && lru[m] == i;
      WithoutAt(lru, m);
      UnlinkLinks(next, prev, nbuf, lru, m);
      PushFrontLinks(Unlink(next, prev, i).0, Unlink(next, prev, i).1, nbuf, RemoveAt(lru, m), i);
      assert prev[At(nbuf, lru, m + 1)] == At(nbuf, lru, m);
      var after, before := next[i], prev[i];
      prev := prev[after := before];
      next := next[before := after];
      next := next[i := next[nbuf]];
      prev := prev[i := nbuf];
      prev := prev[next[nbuf] := i];
      next := next[nbuf := i];
      lru := [i] + Without(lru, i);
    }

    // ---- the whole operations, for one process working alone

    /** bread. The result is the logical block, locked, and nothing else the caller can see has changed. */
    method Bread(p: Pid, id: Id, ghost held: set<nat>, ghost pinned: set<Id>) returns (r: Option<nat>)
      requires Valid() && InStore(disk, id)
      requires View(Abs(), p, held, pinned) && forall j :: j in held ==> bufs[j].id != id
      modifies this`bufs, this`uses
      ensures r.Some? ==>
        && Valid() && r.value < nbuf && r.value !in held && View(Abs(), p, held + {r.value}, pinned)
        && bufs[r.value].id == id && bufs[r.value].data == Get(logical, id)
        && forall j :: j in held ==> bufs[j] == old(bufs)[j]
      ensures |held| + |pinned| < nbuf ==> r.Some?
    {
      hide Inv, View, Cached, Victim;
      if |held| + |pinned| < nbuf {
        RoomLeft(Abs(), p, held, pinned);
      }
      NotMine(Abs(), p, held, pinned, id);
      r := Bget(p, id);
      if r.None? {
        return;
      }
      var i := r.value;
      TakeView(old(Abs()), p, held, pinned, id, i);
      ReadView(old(Abs()), p, held, pinned, id, i);
      Acquire(p, i);
      if !bufs[i].valid {
        Fill(p, i);
      }
      ReadIs(old(Abs()), p, id, i);
      ShowsLogical(Abs(), id, i);
    }

    /** brelse of a buffer that is pinned or has been written. */
    method Brelse(p: Pid, i: nat, ghost held: set<nat>, ghost pinned: set<Id>)
      requires Valid() && View(Abs(), p, held, pinned) && i in held
      requires bufs[i].id in pinned || Clean(Abs(), i)
      modifies this`bufs, this`uses, this`lru, this`next, this`prev
      ensures Valid() && View(Abs(), p, held - {i}, pinned) && GivenUpBy(old(Abs()), p, i, Abs())
      ensures forall j :: j in held - {i} ==> bufs[j] == old(bufs)[j]
    {
      hide Inv, View, Without;
      HeldIn(Abs(), p, held, pinned, i);
      ReleaseView(Abs(), p, held, pinned, i);
      ghost var c := Abs();
      assert |c.uses| == |c.bufs| by {
        SizedView(c, p, held, pinned);
      }
      Release(p, i);
      ghost var m := Abs();
      assert |m.uses| == |m.bufs|;
      PutBack(p, i);
    }

    /** memmove into a held buffer, bwrite it, and bunpin it if asked. */
    method Overwrite(p: Pid, i: nat, b: Block, unpin: bool, ghost held: set<nat>, ghost pinned: set<Id>)
      requires Valid() && View(Abs(), p, held, pinned) && i in held && InStore(logical, bufs[i].id)
      requires unpin ==> bufs[i].id in pinned
      modifies this`bufs, this`uses, this`disk, this`logical, this`trace
      ensures Valid() && View(Abs(), p, held, if unpin then pinned - {old(bufs)[i].id} else pinned)
      ensures Clean(Abs(), i) && bufs[i].id == old(bufs)[i].id
      ensures forall j :: j in held - {i} ==> bufs[j] == old(bufs)[j] && (Clean(old(Abs()), j) ==> Clean(Abs(), j))
      ensures InStore(old(disk), bufs[i].id) && disk == Put(old(disk), bufs[i].id, b)
      ensures logical == Put(old(logical), bufs[i].id, b)
      ensures trace == old(trace) + [disk]
    {
      hide Inv, View, Clean;
      HeldIn(Abs(), p, held, pinned, i);
      StoreView(Abs(), p, held, pinned, i, b);
      SetData(p, i, b);
      Bwrite(p, i);
      if unpin {
        UnpinView(Abs(), p, held, pinned, i);
        Bunpin(p, i);
      }
    }

    /** Two breads in a row, as the log does; None is the panic for want of buffers. */
    method ReadTwo(p: Pid, id1: Id, id2: Id, ghost pinned: set<Id>) returns (r: Option<(nat, nat)>)
      requires Valid() && InStore(disk, id1) && InStore(disk, id2) && id1 != id2
      requires View(Abs(), p, {}, pinned)
      modifies this`bufs, this`uses
      ensures r.Some? ==>
        var (i, j) := r.value;
        && Valid() && i != j && View(Abs(), p, {i, j}, pinned)
        && bufs[i].id == id1 && bufs[i].data == Get(logical, id1)
        && bufs[j].id == id2 && bufs[j].data == Get(logical, id2)
      ensures |pinned| + 2 <= nbuf ==> r.Some?
    {
      r := None;
      var r1 := Bread(p, id1, {}, pinned);
      if r1.Some? {
        assert {} + {r1.value} == {r1.value};
        var r2 := Bread(p, id2, {r1.value}, pinned);
        if r2.Some? {
          assert {r1.value} + {r2.value} == {r1.value, r2.value};
          r := Some((r1.value, r2.value));
        }
      }
    }

    method ReleaseTwo(p: Pid, i: nat, j: nat, ghost pinned: set<Id>)
      requires Valid() && i != j && View(Abs(), p, {i, j}, pinned)
      requires bufs[i].id in pinned || Clean(Abs(), i)
      requires bufs[j].id in pinned || Clean(Abs(), j)
      modifies this`bufs, this`uses, this`lru, this`next, this`prev
      ensures Valid() && View(Abs(), p, {}, pinned)
    {
      hide GivenUpBy, Inv, View;
      assert i in {i, j} && j in {i, j} - {i};
      Brelse(p, i, {i, j}, pinned);
      assert {i, j} - {i} == {j};
      Brelse(p, j, {j}, pinned);
      assert {j} - {j} == {};
    }
  }
}
