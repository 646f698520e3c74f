/** The driver code of kernel/virtio_disk.c, proved to take the steps of VirtqSpec. */
module VirtioDisk {
  import opened Blocks
  import opened VirtqSpec

  lemma {:induction false} ShapedSizes(m: Mem)
    requires Shaped(m)
    ensures |m.ops| == |m.desc| == |m.info| == |m.availRing| == NUM
  {
  }

  class Driver {
    var free: seq<bool>
    var desc: seq<Desc>
    var ops: seq<BlkReq>
    var info: seq<Info>
    var availRing: seq<nat>
    var availIdx: nat
    var usedRing: seq<nat>
    var usedIdx: nat
    var seen: nat
    var busy: set<nat>
    ghost var taken: nat
    ghost var data: map<nat, Block>
    ghost var store: map<nat, Block>
    ghost var book: Book

    ghost function M(): (m: Mem)
      reads this
    {
      Mem(free, desc, ops, info, availRing, availIdx, usedRing, usedIdx, seen, taken, busy, data, store)
    }

    ghost function Abs(): (s: State)
      reads this
    {
      State(M(), book)
    }

    /** virtio_disk_init. */
    constructor (ghost data: map<nat, Block>, ghost store: map<nat, Block>)
      ensures Inv(Abs()) && Abs() == Reset(data, store)
    {
      free, desc := seq(NUM, _ => true), seq(NUM, _ => CLEAR);
      ops, info := seq(NUM, _ => BlkReq(false, 0)), seq(NUM, _ => Info(None, 0));
      availRing, availIdx, usedRing, usedIdx, seen, busy := seq(NUM, _ => 0), 0, seq(NUM, _ => 0), 0, 0, {};
      this.taken, this.data, this.store := 0, data, store;
      book := Book(map[], map[], [], {}, [], {}, 0, []);
      ResetInv(data, store);
    }

    /** alloc_desc: the lowest free descriptor. */
    method AllocDesc() returns (r: Option<nat>)
      requires |free| == NUM
      modifies this`free
      ensures r.Some? ==> FirstFree(old(free), 0, r.value) && free == old(free)[r.value := false]
      ensures r.None? ==> free == old(free) && forall i :: 0 <= i < NUM ==> !free[i]
    {
      for i := 0 to NUM
        invariant free == old(free) && forall j :: 0 <= j < i ==> !free[j]
      {
        if free[i] {
          free := free[i := false];
          return Some(i);
        }
      }
      r := None;
    }

    /** free_desc; false is the panic. */
    method FreeDesc(i: nat) returns (ok: bool)
      requires |free| == |desc| == NUM
      modifies this`free, this`desc
      ensures ok <==> i < NUM && !old(free)[i]
      ensures ok ==> free == old(free)[i := true] && desc == old(desc)[i := CLEAR]
      ensures !ok ==> free == old(free) && desc == old(desc)
    {
      if i >= NUM || free[i] {
        return false;
      }
      desc := desc[i := CLEAR];
      free := free[i := true];
      ok := true;
    }

    /** alloc3_desc: three descriptors, or none, with everything as before. */
    method Alloc3() returns (r: Option<seq<nat>>)
      requires |free| == |desc| == NUM && forall i :: 0 <= i < NUM && free[i] ==> desc[i] == CLEAR
      modifies this`free, this`desc
      ensures r.Some? ==> |r.value| == 3 && Lowest(old(free), r.value) && free == Marked(old(free), r.value)
      ensures r.None? ==> free == old(free) && FewFree(free)
      ensures desc == old(desc)
    {
      ghost var f := free;
      var idx := [];
      for i := 0 to 3
        invariant |idx| == i && Lowest(f, idx) && free == Marked(f, idx) && desc == old(desc)
      {
        MarkedAt(f, idx);
        var d := AllocDesc();
        if d.None? {
          FewAreFree(f, idx);
          LowestPicked(f, idx);
          for j := 0 to i
            invariant free == Marked(f, idx[j..]) && |free| == NUM && desc == old(desc)
          {
            MarkedAt(f, idx[j..]);
            MarkedFirst(f, idx[j..]);
            var _ := FreeDesc(idx[j]);
          }
          return None;
        }
        LowestMore(f, idx, d.value);
        idx := idx + [d.value];
      }
      r := Some(idx);
    }

    /** The descriptor, info and ring writes of virtio_disk_rw. */
    method Fill(i0: nat, i1: nat, i2: nat, b: nat, write: bool, sector: nat)
      requires Shaped(M()) && i0 < NUM && i1 < NUM && i2 < NUM
      modifies this`ops, this`desc, this`info, this`busy, this`availRing, this`availIdx
      ensures M() == SubmitMem(old(M()), b, write, sector, i0, i1, i2).(free := free)
    {
      hide Shaped;
      ghost var was := info;
      ShapedSizes(M());
      ops := ops[i0 := BlkReq(write, sector)];
      desc := desc[i0 := Desc(OpAddr(i0), false, true, i1)];
      desc := desc[i1 := Desc(DataAddr(b), !write, true, i2)];
      info := info[i0 := info[i0].(status := PENDING)];
      desc := desc[i2 := Desc(StatusAddr(i0), true, false, 0)];
      busy := busy + {b};
      info := info[i0 := info[i0].(b := Some(b))];
      availRing := availRing[availIdx % NUM := i0];
      availIdx := (availIdx + 1) % WRAP;
      assert info == was[i0 := Info(Some(b), PENDING)];
    }

    /** The first half of virtio_disk_rw, up to the wait for the device. None means no three descriptors are
        free: nothing has changed and the process sleeps. */
    method Start(b: nat, write: bool, sector: nat) returns (r: Option<nat>)
      requires Inv(Abs()) && b in data && sector in store
      requires forall h :: h in book.reqs ==> book.reqs[h].buf != b && book.reqs[h].sector != sector
      modifies this
      ensures Inv(Abs())
      ensures r.None? ==> Abs() == old(Abs()) && FewFree(free)
      ensures r.Some? ==> exists i1, i2 :: Took(old(Abs()), Submit(b, write, sector, r.value, i1, i2), Abs())
    {
      hide Inv, Next, Enabled;
      ghost var s := Abs();
      Ready(s);
      var got := Alloc3();
      if got.None? {
        return None;
      }
      var i0, i1, i2 := got.value[0], got.value[1], got.value[2];
      ghost var t := Submit(b, write, sector, i0, i1, i2);
      CanSubmit(s, got.value, b, write, sector);
      StepInv(s, t);
      Fill(i0, i1, i2, b, write, sector);
      book := SubmitBook(book, b, write, sector, i0, i1, i2);
      SubmitIs(s, t);
      assert Took(s, t, Abs());
      r := Some(i0);
    }

    /** free_chain, on a chain of three. */
    method FreeChain(h: nat, ghost d1: nat, ghost d2: nat)
      requires Shaped(M()) && h < NUM && d1 < NUM && d2 < NUM && h != d1 && h != d2 && d1 != d2
      requires !free[h] && !free[d1] && !free[d2]
      requires desc[h].more && desc[h].next == d1 && desc[d1].more && desc[d1].next == d2 && !desc[d2].more
      modifies this`free, this`desc
      ensures free == old(free)[h := true][d1 := true][d2 := true]
      ensures desc == old(desc)[h := CLEAR][d1 := CLEAR][d2 := CLEAR]
    {
      ghost var chain := [h, d1, d2];
      ghost var n := 0;
      var i := h;
      while true
        invariant 0 <= n <= 2 && i == chain[n] && |free| == |desc| == NUM
        invariant free == if n == 0 then old(free) else if n == 1 then old(free)[h := true]
                  else old(free)[h := true][d1 := true]
        invariant desc == if n == 0 then old(desc) else if n == 1 then old(desc)[h := CLEAR]
                  else old(desc)[h := CLEAR][d1 := CLEAR]
        decreases 2 - n
      {
        var flag, nxt := desc[i].more, desc[i].next;
        var ok := FreeDesc(i);
        if !flag {
          break;
        }
        i := nxt;
        n := n + 1;
      }
    }

    /** The second half of virtio_disk_rw, once the interrupt handler has cleared the buffer's disk flag. */
    method Finish(h: nat)
      requires Inv(Abs()) && h in book.reqs && book.reqs[h].buf !in busy
      modifies this`free, this`desc, this`info, this`book
      ensures Inv(Abs()) && Took(old(Abs()), Collect(h), Abs())
    {
      hide Inv;
      ghost var s, q := Abs(), book.reqs[h];
      CollectReads(s, h);
      StepInv(s, Collect(h));
      info := info[h := info[h].(b := None)];
      FreeChain(h, q.d1, q.d2);
      book := book.(reqs := book.reqs - {h}, owner := book.owner - {h, q.d1, q.d2}, done := book.done - {h});
    }

    /** One round of virtio_disk_intr: the next completed request is reported, or its status is an error. */
    method ReportOne(ghost was: Book, ghost n: nat) returns (panicked: bool)
      requires Inv(Abs()) && seen != usedIdx && ReportedUpTo(was, book, info, n)
      modifies this`busy, this`seen, this`book
      ensures Inv(Abs()) && n < |was.finished|
      ensures if panicked then Reported(was, book, info, true) else ReportedUpTo(was, book, info, n + 1)
    {
      hide Inv, FirstError, Reported, ReportedUpTo, Enabled;
      InterruptTest(Abs());
      InterruptReads(Abs());
      StepInv(Abs(), Interrupt);
      InRing(Abs());
      var id := usedRing[seen % NUM];
      ReportMore(was, book, info, n, id);
      panicked := info[id].status != 0;
      if !panicked {
        busy := busy - {info[id].b.value};
        seen := (seen + 1) % WRAP;
        book := InterruptBook(book, id);
      }
    }

    /** virtio_disk_intr: reports the completed requests once each, in ring order, up to the first for which the device
        reported an error, on which it panics. */
    method Intr() returns (panicked: bool)
      requires Inv(Abs())
      modifies this`busy, this`seen, this`book
      ensures Inv(Abs()) && Reported(old(book), book, info, panicked)
    {
      hide Inv, FirstError, Reported, ReportedUpTo;
      ghost var n := 0;
      ghost var was := book;
      panicked := false;
      ReportStart(Abs());
      while seen != usedIdx
        invariant Inv(Abs()) && n <= |was.finished| && ReportedUpTo(was, book, info, n) && !panicked
        decreases |was.finished| - n
      {
        panicked := ReportOne(was, n);
        if panicked {
          return;
        }
        n := n + 1;
      }
      InterruptTest(Abs());
      ReportEnd(was, book, info, n);
    }
  }

  /** The first request of q, from n on, for which the device reported an error. */
  ghost function FirstError(info: seq<Info>, q: seq<nat>, n: nat): (k: nat)
    requires n <= |q|
    ensures n <= k <= |q|
    decreases |q| - n
  {
    if n == |q| || q[n] >= |info| || info[q[n]].status != 0 then n else FirstError(info, q, n + 1)
  }

  /** The first n requests of the used ring have been reported, all of them without an error. */
  ghost predicate ReportedUpTo(k: Book, r: Book, info: seq<Info>, n: nat) {
    && n <= |k.finished| && FirstError(info, k.finished, 0) == FirstError(info, k.finished, n)
    && r.reqs == k.reqs && r.finished == k.finished[n..]
    && (forall h :: h in k.finished ==> h in k.reqs) && (forall h :: h in k.finished[..n] ==> h in r.done)
    && r.log == k.log + Tickets(k, k.finished[..n])
  }

  /** What the interrupt handler leaves: the requests before the first with an error are reported, in order, and it
      panics exactly if there is one with an error. */
  ghost predicate Reported(k: Book, r: Book, info: seq<Info>, panicked: bool) {
    var n := FirstError(info, k.finished, 0);
    (panicked <==> n < |k.finished|) && ReportedUpTo(k, r, info, n)
  }

  lemma {:induction false} ReportStart(s: State)
    requires Inv(s)
    ensures ReportedUpTo(s.k, s.k, s.m.info, 0)
  {
    hide Inv;
    FinishedAreRequests(s);
    assert s.k.finished[..0] == [] && s.k.finished[0..] == s.k.finished;
  }

  lemma {:induction false} ReportMore(k: Book, r: Book, info: seq<Info>, n: nat, id: nat)
    requires ReportedUpTo(k, r, info, n) && r.finished != [] && r.finished[0] == id && id in r.reqs && id < |info|
    ensures n < |k.finished|
    ensures if info[id].status != 0 then Reported(k, r, info, true)
            else ReportedUpTo(k, InterruptBook(r, id), info, n + 1)
  {
    var all := k.finished;
    assert all[n] == id && all[n..][1..] == all[n + 1..] && all[..n + 1] == all[..n] + [id];
    assert Tickets(k, all[..n + 1]) == Tickets(k, all[..n]) + [k.reqs[id].ticket];
  }

  lemma {:induction false} ReportEnd(k: Book, r: Book, info: seq<Info>, n: nat)
    requires ReportedUpTo(k, r, info, n) && r.finished == []
    ensures Reported(k, r, info, false)
  {
    assert n == |k.finished|;
  }

  /** The tickets of the requests with heads q. */
  ghost function Tickets(k: Book, q: seq<nat>): (r: seq<nat>)
    requires forall h :: h in q ==> h in k.reqs
  {
    seq(|q|, j requires 0 <= j < |q| => k.reqs[q[j]].ticket)
  }

  lemma {:induction false} InRing(s: State)
    requires Inv(s)
    ensures Shaped(s.m)
  {
  }

  lemma {:induction false} FinishedAreRequests(s: State)
    requires Inv(s)
    ensures Shaped(s.m) && forall h :: h in s.k.finished ==> h in s.k.reqs
  {
  }

  /** What free_chain finds at a finished request. */
  lemma {:induction false} CollectReads(s: State, h: nat)
    requires Inv(s) && h in s.k.reqs && s.k.reqs[h].buf !in s.m.busy
    ensures Shaped(s.m) && Enabled(s, Collect(h))
    ensures var r := s.k.reqs[h]; var m := s.m;
            && h < NUM && r.d1 < NUM && r.d2 < NUM && h != r.d1 && h != r.d2 && r.d1 != r.d2
            && !m.free[h] && !m.free[r.d1] && !m.free[r.d2]
            && m.desc[h].more && m.desc[h].next == r.d1 && m.desc[r.d1].more && m.desc[r.d1].next == r.d2
               && !m.desc[r.d2].more
  {
    hide Placed, Slots, Separate, Accounted;
    assert Described(s, h);
    assert ChainOwned(s.k, h);
  }

  /** t can be taken in s and leads to r. */
  ghost predicate Took(s: State, t: Step, r: State) {
    Enabled(s, t) && Next(s, t) == Some(r)
  }

  lemma {:induction false} Ready(s: State)
    requires Inv(s)
    ensures Shaped(s.m) && forall i :: 0 <= i < NUM && s.m.free[i] ==> s.m.desc[i] == CLEAR
  {
  }

  lemma {:induction false} CanSubmit(s: State, idx: seq<nat>, b: nat, out: bool, sector: nat)
    requires Shaped(s.m) && |idx| == 3 && Lowest(s.m.free, idx) && b in s.m.data && sector in s.m.store
    requires forall h :: h in s.k.reqs ==> s.k.reqs[h].buf != b && s.k.reqs[h].sector != sector
    ensures idx[0] < NUM && idx[1] < NUM && idx[2] < NUM
    ensures Enabled(s, Submit(b, out, sector, idx[0], idx[1], idx[2]))
    ensures Marked(s.m.free, idx) == s.m.free[idx[0] := false][idx[1] := false][idx[2] := false]
  {
    assert FirstFree(s.m.free, Floor(idx, 0), idx[0]);
    assert FirstFree(s.m.free, Floor(idx, 1), idx[1]);
    assert FirstFree(s.m.free, Floor(idx, 2), idx[2]);
    assert idx == [idx[0], idx[1], idx[2]];
  }

  lemma {:induction false} SubmitIs(s: State, t: Step)
    requires t.Submit? && Enabled(s, t)
    ensures t.i0 < NUM && t.i1 < NUM && t.i2 < NUM
    ensures Next(s, t) == Some(State(SubmitMem(s.m, t.b, t.out, t.sector, t.i0, t.i1, t.i2),
                                     SubmitBook(s.k, t.b, t.out, t.sector, t.i0, t.i1, t.i2)))
  {
  }

  /** No three descriptors are free. */
  ghost predicate FewFree(free: seq<bool>) {
    forall i, j, k :: 0 <= i < j < k < |free| ==> !(free[i] && free[j] && free[k])
  }

  function Floor(idx: seq<nat>, k: nat): (lo: nat)
    requires k <= |idx|
  {
    if k == 0 then 0 else idx[k - 1] + 1
  }

  /** idx are the lowest free descriptors, in order. */
  ghost predicate Lowest(free: seq<bool>, idx: seq<nat>) {
    forall k: nat {:trigger Floor(idx, k)} :: k < |idx| ==> FirstFree(free, Floor(idx, k), idx[k])
  }

  function Marked(free: seq<bool>, idx: seq<nat>): (r: seq<bool>) {
    seq(|free|, i requires 0 <= i < |free| => free[i] && i !in idx)
  }

  lemma {:induction false} MarkedAt(free: seq<bool>, idx: seq<nat>)
    ensures |Marked(free, idx)| == |free|
    ensures forall i :: 0 <= i < |free| ==> (Marked(free, idx)[i] <==> free[i] && i !in idx)
  {
  }

  lemma {:induction false} LowestAll(free: seq<bool>, idx: seq<nat>, i: nat, n: nat)
    requires Lowest(free, idx) && n < |idx| && i <= idx[n] && i < |free| && free[i]
    ensures i in idx
  {
    assert FirstFree(free, Floor(idx, n), idx[n]);
    if i != idx[n] {
      LowestAll(free, idx, i, n - 1);
    }
  }

  lemma {:induction false} Increasing(free: seq<bool>, idx: seq<nat>, a: nat, b: nat)
    requires Lowest(free, idx) && a < b < |idx|
    ensures idx[a] < idx[b]
  {
    assert FirstFree(free, Floor(idx, b), idx[b]);
    if a < b - 1 {
      Increasing(free, idx, a, b - 1);
    }
  }

  lemma {:induction false} LowestMore(free: seq<bool>, idx: seq<nat>, d: nat)
    requires Lowest(free, idx) && FirstFree(Marked(free, idx), 0, d)
    ensures Lowest(free, idx + [d]) && Marked(free, idx)[d := false] == Marked(free, idx + [d])
  {
    var n := |idx|;
    if n > 0 && d <= idx[n - 1] {
      LowestAll(free, idx, d, n - 1);
    }
    forall j | Floor(idx, n) <= j < d ensures !free[j] {
      assert !Marked(free, idx)[j];
      if j in idx {
        var m :| 0 <= m < n && idx[m] == j;
        if m < n - 1 {
          Increasing(free, idx, m, n - 1);
        }
      }
    }
    var more := idx + [d];
    forall k: nat | k < |more| ensures FirstFree(free, Floor(more, k), more[k]) {
      if k < n {
        assert FirstFree(free, Floor(idx, k), idx[k]);
      }
    }
  }

  /** idx are different free descriptors. */
  ghost predicate Picked(free: seq<bool>, idx: seq<nat>) {
    && (forall k :: 0 <= k < |idx| ==> idx[k] < |free| && free[idx[k]])
    && (forall a, b :: 0 <= a < b < |idx| ==> idx[a] != idx[b])
  }

  lemma {:induction false} LowestPicked(free: seq<bool>, idx: seq<nat>)
    requires Lowest(free, idx)
    ensures Picked(free, idx)
  {
    forall k: nat | k < |idx| ensures idx[k] < |free| && free[idx[k]] {
      assert FirstFree(free, Floor(idx, k), idx[k]);
    }
    forall a, b | 0 <= a < b < |idx| ensures idx[a] != idx[b] {
      Increasing(free, idx, a, b);
    }
  }

  lemma {:induction false} MarkedFirst(free: seq<bool>, idx: seq<nat>)
    requires Picked(free, idx) && idx != []
    ensures idx[0] < |free| && !Marked(free, idx)[idx[0]]
    ensures Marked(free, idx)[idx[0] := true] == Marked(free, idx[1..])
  {
    assert idx == [idx[0]] + idx[1..];
  }

  lemma {:induction false} FewAreFree(free: seq<bool>, idx: seq<nat>)
    requires Lowest(free, idx) && |idx| < 3 && forall i :: 0 <= i < |free| ==> !Marked(free, idx)[i]
    ensures FewFree(free)
  {
    forall i | 0 <= i < |free| && free[i] ensures i in idx {
      assert !Marked(free, idx)[i];
    }
  }
}
