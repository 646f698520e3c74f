/** The split virtqueue of kernel/virtio_disk.c (VIRTIO 1.1, sections 2.6 and 5.2) as a state machine.

    Processes submit requests and collect them, the interrupt handler drains the used ring, and the device takes
    requests from the available ring and completes them in any order. All four ring indices are 16 bits wide.
    What the device does to a request it learns from the descriptors in memory, not from the bookkeeping.
 */
module VirtqSpec {
  import opened Blocks
  import opened Counting

  const NUM := 8
  const WRAP := 65536
  const PENDING := 0xff

  datatype Addr = Null | OpAddr(i: nat) | DataAddr(b: nat) | StatusAddr(i: nat)
  datatype Desc = Desc(addr: Addr, devWrites: bool, more: bool, next: nat)
  datatype BlkReq = BlkReq(out: bool, sector: nat)
  datatype Info = Info(b: Option<nat>, status: nat)

  /** A request as its process meant it; d1 and d2 are its second and third descriptor. */
  datatype Req = Req(ticket: nat, buf: nat, out: bool, sector: nat, d1: nat, d2: nat)

  /** Memory shared with the device, the driver's and the device's own indices, the buffers and the medium.
      busy are the buffers whose disk flag is set. */
  datatype Mem = Mem(free: seq<bool>, desc: seq<Desc>, ops: seq<BlkReq>, info: seq<Info>,
                     availRing: seq<nat>, availIdx: nat, usedRing: seq<nat>, usedIdx: nat, seen: nat, taken: nat,
                     busy: set<nat>, data: map<nat, Block>, store: map<nat, Block>)

  /** Bookkeeping: requests by head descriptor, which descriptor belongs to which head, where each request is on
      its way, and the tickets in the order the interrupt handler reported them. */
  datatype Book = Book(reqs: map<nat, Req>, owner: map<nat, nat>,
                       waiting: seq<nat>, atDevice: set<nat>, finished: seq<nat>, done: set<nat>,
                       nextTicket: nat, log: seq<nat>)

  datatype State = State(m: Mem, k: Book)

  datatype Step =
    | Submit(b: nat, out: bool, sector: nat, i0: nat, i1: nat, i2: nat)
    | Modify(b: nat, blk: Block)
    | DevTake
    | DevComplete(h: nat, status: nat, left: Block)  // with a status other than 0 the transfer leaves anything
    | Interrupt
    | Collect(h: nat)

  function Inc(x: nat): (r: nat) {
    (x + 1) % WRAP
  }

  predicate Shaped(m: Mem) {
    && |m.free| == |m.desc| == |m.ops| == |m.info| == |m.availRing| == |m.usedRing| == NUM
    && m.availIdx < WRAP && m.usedIdx < WRAP && m.seen < WRAP && m.taken < WRAP
  }

  // ---- what the device reads from memory

  /** The request a chain of descriptors in memory describes, if it is well formed. */
  function Decode(m: Mem, h: nat): (r: Option<(BlkReq, nat, nat, bool)>)
    requires Shaped(m)
  {
    if h < NUM && m.desc[h].addr.OpAddr? && m.desc[h].addr.i < NUM && m.desc[h].more && m.desc[h].next < NUM then
      var d1 := m.desc[m.desc[h].next];
      if d1.addr.DataAddr? && d1.more && d1.next < NUM then
        var d2 := m.desc[d1.next];
        if d2.addr.StatusAddr? && d2.addr.i < NUM && d2.devWrites && !d2.more then
          Some((m.ops[m.desc[h].addr.i], d1.addr.b, d2.addr.i, d1.devWrites))
        else None
      else None
    else None
  }

  // ---- steps

  /** The lowest free descriptor above those below lo. */
  predicate FirstFree(free: seq<bool>, lo: nat, i: nat) {
    lo <= i < |free| && free[i] && forall j :: lo <= j < i ==> !free[j]
  }

  ghost predicate Enabled(s: State, t: Step) {
    Shaped(s.m) &&
    match t
    case Submit(b, out, sector, i0, i1, i2) =>
      && FirstFree(s.m.free, 0, i0) && FirstFree(s.m.free, i0 + 1, i1) && FirstFree(s.m.free, i1 + 1, i2)
      && b in s.m.data && sector in s.m.store
      && (forall h :: h in s.k.reqs ==> s.k.reqs[h].buf != b && s.k.reqs[h].sector != sector)
    case Modify(b, blk) => b in s.m.data && forall h :: h in s.k.reqs ==> s.k.reqs[h].buf != b
    case DevTake => s.m.taken != s.m.availIdx && s.k.waiting != []
    case DevComplete(h, _, _) =>
      && h in s.k.atDevice && Decode(s.m, h).Some?
      && Decode(s.m, h).value.1 in s.m.data && Decode(s.m, h).value.0.sector in s.m.store
    case Interrupt => s.m.seen != s.m.usedIdx && s.k.finished != [] && s.m.usedRing[s.m.seen % NUM] < NUM
    case Collect(h) =>
      && h in s.k.reqs && s.k.reqs[h].buf !in s.m.busy && h < NUM && s.k.reqs[h].d1 < NUM && s.k.reqs[h].d2 < NUM
  }

  const CLEAR := Desc(Null, false, false, 0)

  function SubmitMem(m: Mem, b: nat, out: bool, sector: nat, i0: nat, i1: nat, i2: nat): (r: Mem)
    requires Shaped(m) && i0 < NUM && i1 < NUM && i2 < NUM
  {
    m.(free := m.free[i0 := false][i1 := false][i2 := false],
       ops := m.ops[i0 := BlkReq(out, sector)],
       desc := m.desc[i0 := Desc(OpAddr(i0), false, true, i1)]
                     [i1 := Desc(DataAddr(b), !out, true, i2)]
                     [i2 := Desc(StatusAddr(i0), true, false, 0)],
       info := m.info[i0 := Info(Some(b), PENDING)],
       busy := m.busy + {b},
       availRing := m.availRing[m.availIdx % NUM := i0],
       availIdx := Inc(m.availIdx))
  }

  function SubmitBook(k: Book, b: nat, out: bool, sector: nat, i0: nat, i1: nat, i2: nat): (r: Book) {
    k.(reqs := k.reqs[i0 := Req(k.nextTicket, b, out, sector, i1, i2)],
       owner := k.owner[i0 := i0][i1 := i0][i2 := i0],
       waiting := k.waiting + [i0], nextTicket := k.nextTicket + 1)
  }

  function CompleteMem(m: Mem, h: nat, status: nat, left: Block): (r: Mem)
    requires Shaped(m) && Decode(m, h).Some?
    requires Decode(m, h).value.1 in m.data && Decode(m, h).value.0.sector in m.store
  {
    var (op, b, at, devWrites) := Decode(m, h).value;
    m.(data := if op.out then m.data else m.data[b := if status == 0 then m.store[op.sector] else left],
       store := if op.out then m.store[op.sector := if status == 0 then m.data[b] else left] else m.store,
       info := m.info[at := m.info[at].(status := status)],
       usedRing := m.usedRing[m.usedIdx % NUM := h],
       usedIdx := Inc(m.usedIdx))
  }

  function CollectMem(m: Mem, h: nat, d1: nat, d2: nat): (r: Mem)
    requires Shaped(m) && h < NUM && d1 < NUM && d2 < NUM
  {
    m.(info := m.info[h := m.info[h].(b := None)],
       desc := m.desc[h := CLEAR][d1 := CLEAR][d2 := CLEAR],
       free := m.free[h := true][d1 := true][d2 := true])
  }

  function InterruptBook(k: Book, id: nat): (r: Book)
    requires k.finished != [] && id in k.reqs
  {
    k.(finished := k.finished[1..], done := k.done + {id}, log := k.log + [k.reqs[id].ticket])
  }

  /** The state after a step; an interrupt that finds a bad status or no buffer is the panic, None. */
  ghost function Next(s: State, t: Step): (r: Option<State>)
    requires Enabled(s, t)
  {
    var m, k := s.m, s.k;
    match t
    case Submit(b, out, sector, i0, i1, i2) =>
      Some(State(SubmitMem(m, b, out, sector, i0, i1, i2), SubmitBook(k, b, out, sector, i0, i1, i2)))
    case Modify(b, blk) => Some(s.(m := m.(data := m.data[b := blk])))
    case DevTake =>
      var h := m.availRing[m.taken % NUM];
      Some(State(m.(taken := Inc(m.taken)), k.(waiting := k.waiting[1..], atDevice := k.atDevice + {h})))
    case DevComplete(h, status, left) =>
      Some(State(CompleteMem(m, h, status, left), k.(atDevice := k.atDevice - {h}, finished := k.finished + [h])))
    case Interrupt =>
      var id := m.usedRing[m.seen % NUM];
      if m.info[id].status != 0 || m.info[id].b.None? || id !in k.reqs then None
      else Some(State(m.(busy := m.busy - {m.info[id].b.value}, seen := Inc(m.seen)),
                      InterruptBook(k, id)))
    case Collect(h) =>
      var r := k.reqs[h];
      Some(State(CollectMem(m, h, r.d1, r.d2),
                 k.(reqs := k.reqs - {h}, owner := k.owner - {h, r.d1, r.d2}, done := k.done - {h})))
  }

  // ---- the invariant

  /** Free descriptors and the three-descriptor chains partition the table. */
  ghost predicate Partition(s: State) {
    && Shaped(s.m)
    && (forall i: nat :: i < NUM ==> (s.m.free[i] <==> i !in s.k.owner))
    && (forall i :: i in s.k.owner ==> i < NUM && OwnedBy(s.k, i))
    && (forall h :: h in s.k.reqs ==> ChainOwned(s.k, h))
  }

  ghost predicate OwnedBy(k: Book, i: nat)
    requires i in k.owner
  {
    var h := k.owner[i];
    h in k.reqs && (i == h || i == k.reqs[h].d1 || i == k.reqs[h].d2)
  }

  ghost predicate ChainOwned(k: Book, h: nat)
    requires h in k.reqs
  {
    var r := k.reqs[h];
    && h in k.owner && k.owner[h] == h
    && r.d1 in k.owner && k.owner[r.d1] == h
    && r.d2 in k.owner && k.owner[r.d2] == h
    && h != r.d1 && h != r.d2 && r.d1 != r.d2
  }

  /** A request is in exactly one place. */
  ghost predicate Placed(k: Book) {
    && NoRepeats(k.waiting) && NoRepeats(k.finished)
    && (forall h :: h in k.reqs <==> h in k.waiting || h in k.atDevice || h in k.finished || h in k.done)
    && (forall h :: h in k.waiting ==> h !in k.atDevice && h !in k.finished && h !in k.done)
    && (forall h :: h in k.atDevice ==> h !in k.finished && h !in k.done)
    && (forall h :: h in k.finished ==> h !in k.done)
  }

  /** The descriptors of a request in memory say what its process asked for, and its buffer is recorded. */
  ghost predicate Described(s: State, h: nat)
    requires Shaped(s.m) && h in s.k.reqs
  {
    var r := s.k.reqs[h];
    && h < NUM && r.d1 < NUM && r.d2 < NUM
    && s.m.desc[h] == Desc(OpAddr(h), false, true, r.d1)
    && s.m.desc[r.d1] == Desc(DataAddr(r.buf), !r.out, true, r.d2)
    && s.m.desc[r.d2] == Desc(StatusAddr(h), true, false, 0)
    && s.m.ops[h] == BlkReq(r.out, r.sector)
    && s.m.info[h].b == Some(r.buf)
    && r.buf in s.m.data && r.sector in s.m.store
    && (r.buf in s.m.busy <==> h !in s.k.done)
    && (h in s.k.done ==> s.m.info[h].status == 0)
    && ((h in s.k.finished || h in s.k.done) && s.m.info[h].status == 0 ==> s.m.data[r.buf] == s.m.store[r.sector])
  }

  /** The ring slots from first on hold the sequence q, with 16-bit indices. */
  ghost predicate Slots(ring: seq<nat>, first: nat, last: nat, q: seq<nat>)
    requires |ring| == NUM
  {
    && |q| <= NUM && last == (first + |q|) % WRAP
    && forall j :: 0 <= j < |q| ==> ring[(first + j) % NUM] == q[j]
  }

  ghost predicate Separate(k: Book) {
    forall h, g :: h in k.reqs && g in k.reqs && h != g ==>
      k.reqs[h].buf != k.reqs[g].buf && k.reqs[h].sector != k.reqs[g].sector && k.reqs[h].ticket != k.reqs[g].ticket
  }

  /** Every ticket ever issued is either still in flight or reported exactly once. */
  ghost predicate Accounted(k: Book) {
    && NoRepeats(k.log)
    && (forall j :: 0 <= j < |k.log| ==> k.log[j] < k.nextTicket)
    && (forall h :: h in k.reqs ==> k.reqs[h].ticket < k.nextTicket && (h in k.done <==> k.reqs[h].ticket in k.log))
    && (forall t: nat :: t < k.nextTicket && t !in k.log ==> exists h :: h in k.reqs && k.reqs[h].ticket == t)
  }

  /** Descriptors not in use are zeroed. */
  ghost predicate Cleared(m: Mem) {
    Shaped(m) && forall i: nat :: i < NUM && m.free[i] ==> m.desc[i] == CLEAR
  }

  ghost predicate Inv(s: State) {
    && Shaped(s.m) && Cleared(s.m) && Partition(s) && Placed(s.k) && Separate(s.k) && Accounted(s.k)
    && (forall h :: h in s.k.reqs ==> Described(s, h))
    && Slots(s.m.availRing, s.m.taken, s.m.availIdx, s.k.waiting)
    && Slots(s.m.usedRing, s.m.seen, s.m.usedIdx, s.k.finished)
  }

  // ---- rings

  /** Appending to a ring that is not full overwrites none of its pending slots, also where the index wraps. */
  lemma {:induction false} SlotsAppend(ring: seq<nat>, first: nat, last: nat, q: seq<nat>, x: nat)
    requires |ring| == NUM && first < WRAP && last < WRAP && Slots(ring, first, last, q) && |q| < NUM
    ensures Slots(ring[last % NUM := x], first, Inc(last), q + [x])
  {
    assert last % NUM == (first + |q|) % NUM;
  }

  lemma {:induction false} SlotsPop(ring: seq<nat>, first: nat, last: nat, q: seq<nat>)
    requires |ring| == NUM && first < WRAP && last < WRAP && Slots(ring, first, last, q) && q != []
    ensures ring[first % NUM] == q[0]
    ensures Slots(ring, Inc(first), last, q[1..])
  {
    assert ring[(first + 0) % NUM] == q[0];
    forall j | 0 <= j < |q| - 1 ensures ring[(Inc(first) + j) % NUM] == q[1..][j] {
      assert ring[(first + (j + 1)) % NUM] == q[j + 1];
      assert (Inc(first) + j) % NUM == (first + (j + 1)) % NUM;
    }
  }

  /** The drivers' test for new entries, a comparison of 16-bit indices, is exact. */
  lemma {:induction false} SlotsEmpty(ring: seq<nat>, first: nat, last: nat, q: seq<nat>)
    requires |ring| == NUM && first < WRAP && Slots(ring, first, last, q)
    ensures first == last <==> q == []
  {
  }

  /** Heads in a ring leave room as long as some descriptor is elsewhere. */
  lemma {:induction false} RoomInRing(s: State, q: seq<nat>, x: nat)
    requires Inv(s) && NoRepeats(q) && x < NUM && x !in q && forall h :: h in q ==> h in s.k.reqs
    ensures |q| < NUM
  {
    forall j | 0 <= j < |q| ensures q[j] < NUM {
      assert q[j] in s.k.reqs;
    }
    RangeBoundWithout(q, NUM, x);
  }

  // ---- each step keeps the invariant

  /** Descriptor i is part of no request. */
  ghost predicate Unused(k: Book, i: nat) {
    && i !in k.owner && i !in k.reqs && i !in k.waiting && i !in k.finished && i !in k.done
    && forall h :: h in k.reqs ==> h != i && k.reqs[h].d1 != i && k.reqs[h].d2 != i
  }

  lemma {:induction false} FreeIsUnused(s: State, i: nat)
    requires Partition(s) && Placed(s.k) && i < NUM && s.m.free[i]
    ensures Unused(s.k, i)
  {
    forall h | h in s.k.reqs ensures h != i && s.k.reqs[h].d1 != i && s.k.reqs[h].d2 != i {
      assert ChainOwned(s.k, h);
    }
  }

  lemma {:induction false} SubmitOwned(k: Book, b: nat, out: bool, sector: nat, i0: nat, i1: nat, i2: nat)
    requires i0 !in k.owner && i1 !in k.owner && i2 !in k.owner && i0 < i1 < i2 < NUM && i0 !in k.reqs
    requires forall i :: i in k.owner ==> i < NUM && OwnedBy(k, i)
    requires forall h :: h in k.reqs ==> ChainOwned(k, h)
    ensures var r := SubmitBook(k, b, out, sector, i0, i1, i2);
            (forall i :: i in r.owner ==> i < NUM && OwnedBy(r, i)) && (forall h :: h in r.reqs ==> ChainOwned(r, h))
  {
    var r := SubmitBook(k, b, out, sector, i0, i1, i2);
    forall h | h in r.reqs ensures ChainOwned(r, h) {
      if h != i0 {
        assert ChainOwned(k, h);
      }
    }
    forall i | i in r.owner ensures i < NUM && OwnedBy(r, i) {
      if i in k.owner {
        assert OwnedBy(k, i);
      }
    }
  }

  lemma {:induction false} SubmitPlaced(k: Book, b: nat, out: bool, sector: nat, i0: nat, i1: nat, i2: nat)
    requires Placed(k) && i0 !in k.reqs
    ensures Placed(SubmitBook(k, b, out, sector, i0, i1, i2))
  {
  }

  lemma {:induction false} SubmitAccounted(k: Book, b: nat, out: bool, sector: nat, i0: nat, i1: nat, i2: nat)
    requires Accounted(k) && i0 !in k.reqs && i0 !in k.done
    ensures Accounted(SubmitBook(k, b, out, sector, i0, i1, i2))
  {
    var r := SubmitBook(k, b, out, sector, i0, i1, i2);
    forall n: nat | n < r.nextTicket && n !in r.log ensures exists h :: h in r.reqs && r.reqs[h].ticket == n {
      if n == k.nextTicket {
        assert r.reqs[i0].ticket == n;
      } else {
        var h :| h in k.reqs && k.reqs[h].ticket == n;
        assert r.reqs[h].ticket == n;
      }
    }
  }

  lemma {:induction false} SubmitDescribed(s: State, t: Step, h: nat)
    requires t.Submit? && Enabled(s, t) && h in Next(s, t).value.k.reqs
    requires Unused(s.k, t.i0) && Unused(s.k, t.i1) && Unused(s.k, t.i2)
    requires h in s.k.reqs ==> Described(s, h)
    ensures Described(Next(s, t).value, h)
  {
  }

  lemma {:induction false} SubmitMakesPartition(s: State, t: Step)
    requires Partition(s) && t.Submit? && Enabled(s, t)
    requires Unused(s.k, t.i0) && Unused(s.k, t.i1) && Unused(s.k, t.i2)
    ensures Partition(Next(s, t).value)
  {
    hide OwnedBy, ChainOwned, SubmitBook;
    SubmitOwned(s.k, t.b, t.out, t.sector, t.i0, t.i1, t.i2);
    SubmitFree(s, t);
  }

  lemma {:induction false} SubmitFree(s: State, t: Step)
    requires Shaped(s.m) && t.Submit? && Enabled(s, t)
    requires forall i: nat :: i < NUM ==> (s.m.free[i] <==> i !in s.k.owner)
    ensures var r := Next(s, t).value; Shaped(r.m) && forall i: nat :: i < NUM ==> (r.m.free[i] <==> i !in r.k.owner)
  {
  }

  lemma {:induction false} SubmitSeparate(s: State, t: Step)
    requires Separate(s.k) && Accounted(s.k) && t.Submit? && Enabled(s, t) && t.i0 !in s.k.reqs
    ensures Separate(Next(s, t).value.k)
  {
  }

  lemma {:induction false} WaitingHasRoom(s: State, x: nat)
    requires Inv(s) && x < NUM && Unused(s.k, x)
    ensures |s.k.waiting| < NUM
  {
    RoomInRing(s, s.k.waiting, x);
  }

  lemma {:induction false} SubmitInv(s: State, t: Step)
    requires Inv(s) && t.Submit? && Enabled(s, t)
    ensures Inv(Next(s, t).value)
  {
    hide Described, Placed, Accounted, Slots, Partition, Separate, Inc;
    var r := Next(s, t).value;
    FreeIsUnused(s, t.i0);
    FreeIsUnused(s, t.i1);
    FreeIsUnused(s, t.i2);
    WaitingHasRoom(s, t.i0);
    SubmitMakesPartition(s, t);
    SubmitSeparate(s, t);
    SubmitPlaced(s.k, t.b, t.out, t.sector, t.i0, t.i1, t.i2);
    SubmitAccounted(s.k, t.b, t.out, t.sector, t.i0, t.i1, t.i2);
    SlotsAppend(s.m.availRing, s.m.taken, s.m.availIdx, s.k.waiting, t.i0);
    forall h | h in r.k.reqs ensures Described(r, h) {
      SubmitDescribed(s, t, h);
    }
  }

  lemma {:induction false} TakePlaced(k: Book, h: nat)
    requires Placed(k) && k.waiting != [] && k.waiting[0] == h
    ensures Placed(k.(waiting := k.waiting[1..], atDevice := k.atDevice + {h}))
    ensures h in k.reqs
  {
    assert k.waiting == [h] + k.waiting[1..];
  }

  lemma {:induction false} DevTakeInv(s: State)
    requires Inv(s) && Enabled(s, DevTake)
    ensures Inv(Next(s, DevTake).value)
  {
    hide Placed, Slots, Separate, Accounted, Described, Partition;
    SlotsPop(s.m.availRing, s.m.taken, s.m.availIdx, s.k.waiting);
    TakePlaced(s.k, s.k.waiting[0]);
    var r := Next(s, DevTake).value;
    SamePartition(s, r);
    SameAccounts(s.k, r.k);
    forall h | h in r.k.reqs ensures Described(r, h) {
      SameDescribed(s, r, h);
    }
  }

  lemma {:induction false} SameDescribed(s: State, r: State, h: nat)
    requires Shaped(s.m) && Shaped(r.m) && h in s.k.reqs && Described(s, h)
    requires r.k.reqs == s.k.reqs && r.k.done == s.k.done && r.k.finished == s.k.finished
    requires r.m == s.m.(taken := r.m.taken, seen := r.m.seen)
    ensures Described(r, h)
  {
  }

  /** What the device reads from memory is what the process meant. */
  lemma {:induction false} DeviceReadsRequest(s: State, h: nat)
    requires Inv(s) && h in s.k.reqs
    ensures var r := s.k.reqs[h]; Decode(s.m, h) == Some((BlkReq(r.out, r.sector), r.buf, h, !r.out))
    ensures s.k.reqs[h].buf in s.m.data && s.k.reqs[h].sector in s.m.store
  {
    hide Placed, Slots, Separate, Accounted, Partition;
    assert Described(s, h);
  }

  lemma {:induction false} CompletePlaced(k: Book, h: nat)
    requires Placed(k) && h in k.atDevice
    ensures Placed(k.(atDevice := k.atDevice - {h}, finished := k.finished + [h]))
    ensures h in k.reqs && h !in k.finished
  {
  }

  lemma {:induction false} CompleteDescribed(s: State, h: nat, g: nat, status: nat, left: Block)
    requires Separate(s.k) && Placed(s.k) && Enabled(s, DevComplete(h, status, left)) && g in s.k.reqs && h in s.k.reqs
    requires var r := s.k.reqs[h]; Decode(s.m, h) == Some((BlkReq(r.out, r.sector), r.buf, h, !r.out))
    requires Described(s, g) && Described(s, h)
    ensures Described(Next(s, DevComplete(h, status, left)).value, g)
  {
    hide Decode;
  }

  lemma {:induction false} CompleteInv(s: State, h: nat, status: nat, left: Block)
    requires Inv(s) && Enabled(s, DevComplete(h, status, left))
    ensures Inv(Next(s, DevComplete(h, status, left)).value)
  {
    hide Placed, Slots, Separate, Accounted, Described, Decode, Inc;
    CompletePlaced(s.k, h);
    DeviceReadsRequest(s, h);
    FinishedHasRoom(s, h);
    SlotsAppend(s.m.usedRing, s.m.seen, s.m.usedIdx, s.k.finished, h);
    var r := Next(s, DevComplete(h, status, left)).value;
    forall g | g in r.k.reqs ensures Described(r, g) {
      CompleteDescribed(s, h, g, status, left);
    }
    SamePartition(s, r);
    assert Accounted(r.k) && Separate(r.k) by {
      SameAccounts(s.k, r.k);
    }
  }

  lemma {:induction false} FinishedHasRoom(s: State, h: nat)
    requires Inv(s) && h in s.k.reqs && h !in s.k.finished
    ensures |s.k.finished| < NUM
  {
    assert Described(s, h);
    RoomInRing(s, s.k.finished, h);
  }

  lemma {:induction false} SamePartition(s: State, r: State)
    requires Partition(s) && Shaped(r.m) && r.m.free == s.m.free && r.k.owner == s.k.owner && r.k.reqs == s.k.reqs
    ensures Partition(r)
  {
    forall h | h in r.k.reqs ensures ChainOwned(r.k, h) {
      assert ChainOwned(s.k, h);
    }
    forall i | i in r.k.owner ensures i < NUM && OwnedBy(r.k, i) {
      assert OwnedBy(s.k, i);
    }
  }

  lemma {:induction false} SameAccounts(k: Book, l: Book)
    requires l.reqs == k.reqs && l.log == k.log && l.done == k.done && l.nextTicket == k.nextTicket
    ensures Accounted(k) ==> Accounted(l)
    ensures Separate(k) ==> Separate(l)
  {
    if Accounted(k) {
      forall t: nat | t < l.nextTicket && t !in l.log ensures exists h :: h in l.reqs && l.reqs[h].ticket == t {
        var h :| h in k.reqs && k.reqs[h].ticket == t;
        assert l.reqs[h].ticket == t;
      }
    }
  }

  lemma {:induction false} InterruptPlaced(k: Book, id: nat)
    requires Placed(k) && k.finished != [] && k.finished[0] == id
    ensures id in k.reqs && id !in k.done && Placed(InterruptBook(k, id))
  {
    assert k.finished == [id] + k.finished[1..];
  }

  lemma {:induction false} InterruptAccounted(k: Book, id: nat)
    requires Accounted(k) && Separate(k) && k.finished != [] && id in k.reqs && id !in k.done
    ensures Accounted(InterruptBook(k, id)) && Separate(InterruptBook(k, id))
  {
    var l := InterruptBook(k, id);
    forall t: nat | t < l.nextTicket && t !in l.log ensures exists h :: h in l.reqs && l.reqs[h].ticket == t {
      assert t !in k.log;
      var h :| h in k.reqs && k.reqs[h].ticket == t;
      assert l.reqs[h].ticket == t;
    }
  }

  lemma {:induction false} InterruptDescribed(s: State, r: State, id: nat, h: nat)
    requires Shaped(s.m) && Shaped(r.m) && Placed(s.k) && Separate(s.k) && s.k.finished != [] && s.k.finished[0] == id
    requires id in s.k.reqs && h in s.k.reqs && Described(s, h) && id < NUM && s.m.info[id].status == 0
    requires r.m == s.m.(busy := s.m.busy - {s.k.reqs[id].buf}, seen := r.m.seen)
    requires r.k.reqs == s.k.reqs && r.k.done == s.k.done + {id} && r.k.finished == s.k.finished[1..]
    ensures Described(r, h)
  {
    assert s.k.finished == [id] + s.k.finished[1..];
  }

  /** The id the interrupt handler reads is a completed request with its buffer recorded; the handler panics if and
      only if the device reported an error for it. */
  lemma {:induction false} InterruptReads(s: State)
    requires Inv(s) && Enabled(s, Interrupt)
    ensures var id := s.k.finished[0];
            && s.m.usedRing[s.m.seen % NUM] == id && id in s.k.reqs && id < NUM
            && s.m.info[id].b == Some(s.k.reqs[id].buf)
            && (Next(s, Interrupt) == None <==> s.m.info[id].status != 0)
  {
    hide Placed, Slots, Separate, Accounted, Partition;
    SlotsPop(s.m.usedRing, s.m.seen, s.m.usedIdx, s.k.finished);
    InterruptPlaced(s.k, s.k.finished[0]);
    assert Described(s, s.k.finished[0]);
  }

  lemma {:induction false} InterruptInv(s: State)
    requires Inv(s) && Enabled(s, Interrupt) && Next(s, Interrupt).Some?
    ensures Inv(Next(s, Interrupt).value)
  {
    hide Placed, Slots, Separate, Accounted, Partition, Described;
    var id := s.k.finished[0];
    InterruptReads(s);
    SlotsPop(s.m.usedRing, s.m.seen, s.m.usedIdx, s.k.finished);
    InterruptPlaced(s.k, id);
    var r := Next(s, Interrupt).value;
    InterruptAccounted(s.k, id);
    SamePartition(s, r);
    forall h | h in r.k.reqs ensures Described(r, h) {
      InterruptDescribed(s, r, id, h);
    }
  }

  // ---- collecting a finished request

  lemma {:induction false} CollectOwned(k: Book, h: nat)
    requires h in k.reqs && (forall i :: i in k.owner ==> i < NUM && OwnedBy(k, i))
    requires forall g :: g in k.reqs ==> ChainOwned(k, g)
    ensures var r := k.reqs[h];
            var l := k.(reqs := k.reqs - {h}, owner := k.owner - {h, r.d1, r.d2}, done := k.done - {h});
            (forall i :: i in l.owner ==> i < NUM && OwnedBy(l, i)) && (forall g :: g in l.reqs ==> ChainOwned(l, g))
  {
    var r := k.reqs[h];
    var l := k.(reqs := k.reqs - {h}, owner := k.owner - {h, r.d1, r.d2}, done := k.done - {h});
    assert ChainOwned(k, h);
    forall g | g in l.reqs ensures ChainOwned(l, g) {
      assert ChainOwned(k, g);
    }
    forall i | i in l.owner ensures i < NUM && OwnedBy(l, i) {
      assert OwnedBy(k, i);
    }
  }

  lemma {:induction false} CollectPartition(s: State, h: nat)
    requires Partition(s) && Enabled(s, Collect(h))
    ensures Partition(Next(s, Collect(h)).value)
  {
    hide OwnedBy;
    CollectOwned(s.k, h);
  }

  lemma {:induction false} CollectBooks(s: State, h: nat)
    requires Placed(s.k) && Separate(s.k) && Accounted(s.k) && Enabled(s, Collect(h)) && h in s.k.done
    ensures var k := Next(s, Collect(h)).value.k; Placed(k) && Separate(k) && Accounted(k)
  {
    hide Placed, Separate, Accounted;
    var k := Next(s, Collect(h)).value.k;
    DroppedPlaced(s.k, k, h);
    DroppedAccounted(s.k, k, h);
  }

  /** k is l without request h. */
  ghost predicate Dropped(l: Book, k: Book, h: nat) {
    && h in l.done && k.reqs == l.reqs - {h} && k.done == l.done - {h} && k.waiting == l.waiting
    && k.atDevice == l.atDevice && k.finished == l.finished && k.log == l.log && k.nextTicket == l.nextTicket
  }

  lemma {:induction false} DroppedPlaced(l: Book, k: Book, h: nat)
    requires Placed(l) && Separate(l) && Dropped(l, k, h)
    ensures Placed(k) && Separate(k)
  {
  }

  lemma {:induction false} DroppedAccounted(l: Book, k: Book, h: nat)
    requires Accounted(l) && Dropped(l, k, h) && h in l.reqs
    ensures Accounted(k)
  {
    forall t: nat | t < k.nextTicket && t !in k.log ensures exists g :: g in k.reqs && k.reqs[g].ticket == t {
      var g :| g in l.reqs && l.reqs[g].ticket == t;
      assert k.reqs[g].ticket == t;
    }
  }

  lemma {:induction false} CollectDescribed(s: State, h: nat, g: nat)
    requires Enabled(s, Collect(h)) && g in s.k.reqs && g != h && Described(s, g)
    requires forall x :: x in s.k.reqs ==> ChainOwned(s.k, x)
    ensures Described(Next(s, Collect(h)).value, g)
  {
    assert ChainOwned(s.k, g) && ChainOwned(s.k, h);
  }

  lemma {:induction false} ChainsOwned(s: State)
    requires Partition(s)
    ensures forall x :: x in s.k.reqs ==> ChainOwned(s.k, x)
  {
  }

  lemma {:induction false} CollectInv(s: State, h: nat)
    requires Inv(s) && Enabled(s, Collect(h))
    ensures Inv(Next(s, Collect(h)).value)
    ensures h in s.k.done
  {
    assert h in s.k.done by {
      assert Described(s, h);
    }
    CollectRest(s, h);
  }

  lemma {:induction false} CollectRest(s: State, h: nat)
    requires Inv(s) && Enabled(s, Collect(h)) && h in s.k.done
    ensures Inv(Next(s, Collect(h)).value)
  {
    hide Placed, Slots, Separate, Accounted, Partition, Described, ChainOwned;
    CollectPartition(s, h);
    CollectBooks(s, h);
    ChainsOwned(s);
    var r := Next(s, Collect(h)).value;
    forall g | g in r.k.reqs ensures Described(r, g) {
      CollectDescribed(s, h, g);
    }
  }

  lemma {:induction false} ModifyInv(s: State, t: Step)
    requires Inv(s) && t.Modify? && Enabled(s, t)
    ensures Inv(Next(s, t).value)
  {
    hide Placed, Slots, Separate, Accounted, Partition;
    var r := Next(s, t).value;
    SamePartition(s, r);
    forall h | h in r.k.reqs ensures Described(r, h) {
      assert Described(s, h);
    }
  }

  lemma {:induction false} StepInv(s: State, t: Step)
    requires Inv(s) && Enabled(s, t)
    ensures Next(s, t).Some? ==> Inv(Next(s, t).value)
    ensures Next(s, t) == None ==> t == Interrupt
  {
    hide Inv, Enabled, SubmitMem, SubmitBook, CompleteMem, CollectMem;
    match t {
      case Submit(_, _, _, _, _, _) => SubmitInv(s, t);
      case Modify(_, _) => ModifyInv(s, t);
      case DevTake => DevTakeInv(s);
      case DevComplete(h, status, left) => CompleteInv(s, h, status, left);
      case Interrupt =>
        if Next(s, Interrupt).Some? {
          InterruptInv(s);
        }
      case Collect(h) => CollectInv(s, h);
    }
  }

  // ---- whole runs

  /** The queue as virtio_disk_init leaves it. */
  function Reset(data: map<nat, Block>, store: map<nat, Block>): (s: State) {
    State(Mem(seq(NUM, _ => true), seq(NUM, _ => CLEAR), seq(NUM, _ => BlkReq(false, 0)), seq(NUM, _ => Info(None, 0)),
              seq(NUM, _ => 0), 0, seq(NUM, _ => 0), 0, 0, 0, {}, data, store),
          Book(map[], map[], [], {}, [], {}, 0, []))
  }

  lemma {:induction false} ResetInv(data: map<nat, Block>, store: map<nat, Block>)
    ensures Inv(Reset(data, store))
  {
  }

  ghost predicate Run(ss: seq<State>, ts: seq<Step>) {
    && |ss| == |ts| + 1
    && forall k :: 0 <= k < |ts| ==> Enabled(ss[k], ts[k]) && Next(ss[k], ts[k]) == Some(ss[k + 1])
  }

  ghost predicate From(ss: seq<State>, ts: seq<Step>, data: map<nat, Block>, store: map<nat, Block>) {
    Run(ss, ts) && ss[0] == Reset(data, store)
  }

  lemma {:induction false} RunInv(ss: seq<State>, ts: seq<Step>, data: map<nat, Block>, store: map<nat, Block>)
    requires From(ss, ts, data, store)
    ensures Inv(ss[|ts|])
  {
    hide Inv, Next, Enabled, Reset;
    if ts == [] {
      ResetInv(data, store);
    } else {
      var n := |ts| - 1;
      assert From(ss[..n + 1], ts[..n], data, store);
      RunInv(ss[..n + 1], ts[..n], data, store);
      StepInv(ss[n], ts[n]);
      assert Next(ss[n], ts[n]) == Some(ss[n + 1]);
    }
  }

  lemma {:induction false} InterruptTest(s: State)
    requires Inv(s)
    ensures Enabled(s, Interrupt) <==> s.m.seen != s.m.usedIdx
    ensures s.m.seen != s.m.usedIdx <==> s.k.finished != []
  {
    hide Separate, Accounted, Partition, Slots, Placed;
    SlotsEmpty(s.m.usedRing, s.m.seen, s.m.usedIdx, s.k.finished);
    if s.k.finished != [] {
      SlotsPop(s.m.usedRing, s.m.seen, s.m.usedIdx, s.k.finished);
      InterruptPlaced(s.k, s.k.finished[0]);
      assert Described(s, s.k.finished[0]);
    }
  }

  lemma {:induction false} DeviceTest(s: State, h: nat, status: nat, left: Block)
    requires Inv(s) && h in s.k.atDevice
    ensures Enabled(s, DevComplete(h, status, left))
  {
    hide Separate, Accounted, Partition, Slots, Placed, Decode;
    CompletePlaced(s.k, h);
    DeviceReadsRequest(s, h);
  }

  lemma {:induction false} CollectTest(s: State, h: nat)
    requires Inv(s) && h in s.k.reqs
    ensures Enabled(s, Collect(h)) <==> h in s.k.done
  {
    hide Separate, Accounted, Partition, Slots, Placed;
    assert Described(s, h);
  }

  /** What the code tests is all a step needs: an interrupt or the device acts exactly when its 16-bit indices
      differ, and then finds a proper request there; a process goes on exactly when its request is done. */
  lemma {:induction false} TestsAreExact(s: State)
    requires Inv(s)
    ensures Enabled(s, DevTake) <==> s.m.taken != s.m.availIdx
    ensures Enabled(s, Interrupt) <==> s.m.seen != s.m.usedIdx
    ensures forall h, status, left :: h in s.k.atDevice ==> Enabled(s, DevComplete(h, status, left))
    ensures forall h :: h in s.k.reqs ==> (Enabled(s, Collect(h)) <==> h in s.k.done)
  {
    hide Separate, Accounted, Partition, Slots, Placed, Described, Decode;
    SlotsEmpty(s.m.availRing, s.m.taken, s.m.availIdx, s.k.waiting);
    InterruptTest(s);
    forall h, status, left | h in s.k.atDevice ensures Enabled(s, DevComplete(h, status, left)) {
      DeviceTest(s, h, status, left);
    }
    forall h | h in s.k.reqs ensures Enabled(s, Collect(h)) <==> h in s.k.done {
      CollectTest(s, h);
    }
  }

  /** In every run, whatever order the device completes in, each request issued is reported exactly once or is
      still on its way; none is reported that was not issued. */
  lemma {:induction false} ExactlyOnce(ss: seq<State>, ts: seq<Step>, data: map<nat, Block>, store: map<nat, Block>,
                                       t: nat)
    requires From(ss, ts, data, store)
    ensures var k := ss[|ts|].k;
            && NoRepeats(k.log)
            && (t in k.log ==> t < k.nextTicket)
            && (t < k.nextTicket ==>
                 (t in k.log <==> !exists h :: h in k.reqs && h !in k.done && k.reqs[h].ticket == t))
  {
    RunInv(ss, ts, data, store);
  }

  /** In every run, an available slot is written only when the device has taken what was in it. */
  lemma {:induction false} AvailSlotNotPending(ss: seq<State>, ts: seq<Step>, data: map<nat, Block>,
                                               store: map<nat, Block>, t: Step, j: nat)
    requires From(ss, ts, data, store) && t.Submit? && Enabled(ss[|ts|], t) && j < |ss[|ts|].k.waiting|
    ensures var m := ss[|ts|].m; (m.taken + j) % NUM != m.availIdx % NUM
  {
    hide Placed, Separate, Accounted, Described;
    RunInv(ss, ts, data, store);
    var s := ss[|ts|];
    FreeIsUnused(s, t.i0);
    WaitingHasRoom(s, t.i0);
  }

  /** When a process collects its request, its buffer and the medium agree. */
  lemma {:induction false} CollectDelivers(ss: seq<State>, ts: seq<Step>, data: map<nat, Block>, store: map<nat, Block>,
                                           h: nat)
    requires From(ss, ts, data, store) && Enabled(ss[|ts|], Collect(h))
    ensures var s := ss[|ts|]; var r := s.k.reqs[h];
            r.buf in s.m.data && r.sector in s.m.store && s.m.data[r.buf] == s.m.store[r.sector]
  {
    RunInv(ss, ts, data, store);
    assert Described(ss[|ts|], h);
  }

  /** Nothing gets stuck: while a request is on its way, the device can take or complete one, the interrupt handler has
      one to report, or its process can collect it. */
  lemma {:induction false} RequestGoesOn(ss: seq<State>, ts: seq<Step>, data: map<nat, Block>, store: map<nat, Block>,
                                         h: nat) returns (t: Step)
    requires From(ss, ts, data, store) && h in ss[|ts|].k.reqs
    ensures Enabled(ss[|ts|], t) && (t.DevTake? || t.DevComplete? || t.Interrupt? || t.Collect?)
  {
    hide Separate, Accounted, Partition, Described, Decode, Enabled;
    RunInv(ss, ts, data, store);
    var s := ss[|ts|];
    TestsAreExact(s);
    SlotsEmpty(s.m.availRing, s.m.taken, s.m.availIdx, s.k.waiting);
    SlotsEmpty(s.m.usedRing, s.m.seen, s.m.usedIdx, s.k.finished);
    if h in s.k.waiting {
      t := DevTake;
    } else if h in s.k.atDevice {
      t := DevComplete(h, 0, ZERO_BLOCK);
    } else if h in s.k.finished {
      t := Interrupt;
    } else {
      t := Collect(h);
    }
  }

  /** What a step does to a request that it does not collect: a request to write keeps its buffer, a request to read
      keeps its sector. */
  lemma {:induction false} StepKeepsSource(s: State, t: Step, h: nat)
    requires Inv(s) && Enabled(s, t) && Next(s, t).Some? && h in s.k.reqs && t != Collect(h)
    ensures var (r, n) := (s.k.reqs[h], Next(s, t).value);
            && h in n.k.reqs && n.k.reqs[h] == r
            && r.buf in s.m.data && r.buf in n.m.data && r.sector in s.m.store && r.sector in n.m.store
            && (r.out ==> n.m.data[r.buf] == s.m.data[r.buf])
            && (!r.out ==> n.m.store[r.sector] == s.m.store[r.sector])
  {
    hide Accounted, Slots, Cleared, Decode, Partition, Placed, Separate, Described, SubmitMem, CompleteMem, CollectMem;
    InvDescribed(s, h);
    DescribedIn(s, h);
    match t {
      case DevComplete(g, status, left) =>
        AtDevice(s, g);
        DeviceReadsRequest(s, g);
        CompleteKeepsSource(s, g, status, left, h);
      case Submit(b, out, sector, i0, i1, i2) =>
        FreeIsUnused(s, i0);
        SubmitKeeps(s.m, b, out, sector, i0, i1, i2);
      case Collect(g) => CollectKeeps(s.m, g, s.k.reqs[g].d1, s.k.reqs[g].d2);
      case _ =>
    }
  }

  lemma {:induction false} DescribedIn(s: State, h: nat)
    requires Shaped(s.m) && h in s.k.reqs && Described(s, h)
    ensures s.k.reqs[h].buf in s.m.data && s.k.reqs[h].sector in s.m.store
  {
  }

  lemma {:induction false} AtDevice(s: State, g: nat)
    requires Inv(s) && g in s.k.atDevice
    ensures g in s.k.reqs
  {
  }

  lemma {:induction false} SubmitKeeps(m: Mem, b: nat, out: bool, sector: nat, i0: nat, i1: nat, i2: nat)
    requires Shaped(m) && i0 < NUM && i1 < NUM && i2 < NUM
    ensures var r := SubmitMem(m, b, out, sector, i0, i1, i2); r.data == m.data && r.store == m.store
  {
  }

  lemma {:induction false} CollectKeeps(m: Mem, h: nat, d1: nat, d2: nat)
    requires Shaped(m) && h < NUM && d1 < NUM && d2 < NUM
    ensures CollectMem(m, h, d1, d2).data == m.data && CollectMem(m, h, d1, d2).store == m.store
  {
  }

  /** A completion writes to the buffer of a read or to the sector of a write, and nowhere else. */
  lemma {:induction false} CompleteKeepsSource(s: State, g: nat, status: nat, left: Block, h: nat)
    requires Shaped(s.m) && h in s.k.reqs && g in s.k.reqs && Separate(s.k)
    requires s.k.reqs[h].buf in s.m.data && s.k.reqs[h].sector in s.m.store
    requires s.k.reqs[g].buf in s.m.data && s.k.reqs[g].sector in s.m.store
    requires var q := s.k.reqs[g]; Decode(s.m, g) == Some((BlkReq(q.out, q.sector), q.buf, g, !q.out))
    ensures var (r, n) := (s.k.reqs[h], CompleteMem(s.m, g, status, left));
            && r.buf in n.data && r.sector in n.store
            && (r.out || g != h ==> n.data[r.buf] == s.m.data[r.buf])
            && (!r.out || g != h ==> n.store[r.sector] == s.m.store[r.sector])
  {
    hide Decode;
  }

  lemma {:induction false} LifeKeepsSource(ss: seq<State>, ts: seq<Step>, data: map<nat, Block>, store: map<nat, Block>,
                                           i: nat, j: nat, h: nat)
    requires From(ss, ts, data, store) && i <= j <= |ts| && h in ss[i].k.reqs
    requires forall m :: i <= m < j ==> ts[m] != Collect(h)
    ensures var (r, s, n) := (ss[i].k.reqs[h], ss[i].m, ss[j].m);
            && h in ss[j].k.reqs && ss[j].k.reqs[h] == r
            && r.buf in s.data && r.buf in n.data && r.sector in s.store && r.sector in n.store
            && (r.out ==> n.data[r.buf] == s.data[r.buf])
            && (!r.out ==> n.store[r.sector] == s.store[r.sector])
    decreases j
  {
    hide Enabled, Next, Inv;
    if i == j {
      InvAt(ss, ts, data, store, i);
      assert Described(ss[i], h) by {
        InvDescribed(ss[i], h);
      }
    } else {
      LifeKeepsSource(ss, ts, data, store, i, j - 1, h);
      InvAt(ss, ts, data, store, j - 1);
      assert Next(ss[j - 1], ts[j - 1]) == Some(ss[j - 1 + 1]);
      StepKeepsSource(ss[j - 1], ts[j - 1], h);
    }
  }

  lemma {:induction false} InvAt(ss: seq<State>, ts: seq<Step>, data: map<nat, Block>, store: map<nat, Block>, i: nat)
    requires From(ss, ts, data, store) && i <= |ts|
    ensures Inv(ss[i])
  {
    hide Enabled, Next, Inv;
    assert From(ss[..i + 1], ts[..i], data, store);
    RunInv(ss[..i + 1], ts[..i], data, store);
  }

  lemma {:induction false} InvDescribed(s: State, h: nat)
    requires Inv(s) && h in s.k.reqs
    ensures Shaped(s.m) && Described(s, h)
  {
  }

  /** Over the whole life of a request that succeeds: a write puts on the medium what the buffer held when it was
      submitted, a read puts into the buffer what the medium held then. */
  lemma {:induction false} RequestTransfers(ss: seq<State>, ts: seq<Step>, data: map<nat, Block>,
                                            store: map<nat, Block>, i: nat, h: nat)
    requires From(ss, ts, data, store) && i <= |ts| && h in ss[i].k.reqs && Enabled(ss[|ts|], Collect(h))
    requires forall m :: i <= m < |ts| ==> ts[m] != Collect(h)
    ensures var (r, s, n) := (ss[i].k.reqs[h], ss[i].m, ss[|ts|].m);
            && r.buf in s.data && r.buf in n.data && r.sector in s.store && r.sector in n.store
            && (r.out ==> n.store[r.sector] == s.data[r.buf])
            && (!r.out ==> n.data[r.buf] == s.store[r.sector])
  {
    hide Inv, Next, Enabled;
    LifeKeepsSource(ss, ts, data, store, i, |ts|, h);
    CollectDelivers(ss, ts, data, store, h);
  }

  // ---- the driver's notes

  /** A note of a buffer stands exactly where a request is on its way. */
  ghost predicate Noted(s: State) {
    Shaped(s.m) && forall i: nat :: i < NUM ==> (s.m.info[i].b.Some? <==> i in s.k.reqs)
  }

  lemma {:induction false} StepNoted(s: State, t: Step)
    requires Inv(s) && Noted(s) && Enabled(s, t) && Next(s, t).Some?
    ensures Noted(Next(s, t).value)
  {
    hide Accounted, Slots, Cleared, Decode, Partition, Placed, Separate, Described;
    StepInv(s, t);
    if t.DevComplete? {
      AtDevice(s, t.h);
      DeviceReadsRequest(s, t.h);
    }
  }

  /** In every run the driver's note for a chain names a buffer from submission to collection and not longer: what the
      next user of those descriptors finds is empty. */
  lemma {:induction false} NotesAreExact(ss: seq<State>, ts: seq<Step>, data: map<nat, Block>, store: map<nat, Block>)
    requires From(ss, ts, data, store)
    ensures Noted(ss[|ts|])
  {
    hide Enabled, Next, Inv;
    if ts != [] {
      var n := |ts| - 1;
      assert From(ss[..n + 1], ts[..n], data, store);
      NotesAreExact(ss[..n + 1], ts[..n], data, store);
      InvAt(ss, ts, data, store, n);
      StepNoted(ss[n], ts[n]);
    }
  }
}
