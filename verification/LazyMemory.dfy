/** Lazily allocated user memory: faulting pages in, and copying between the kernel and a space. */
module LazyMemory {
  import opened Blocks
  import opened VmSpec
  import opened PageTable
  import opened UserMemory

  /** The flags vmfault gives a page. */
  const LAZY_FLAGS := PTE_V + PTE_R + PTE_W + PTE_U

  /** Page k of space s of size sz as it would be if every page below sz had been allocated and zeroed at once. */
  ghost function EagerAt(m: Mem, s: nat, sz: nat, k: nat): (r: Option<UPage>) {
    if k >= MAXPAGES then None
    else if Valid(Leaf(m, s, k)) then PageAt(m, s, k)
    else if k < PgUp(sz) then Some(UPage(ZERO_PAGE, LAZY_FLAGS))
    else None
  }

  ghost predicate SameEager(m: Mem, r: Mem, s: nat, sz: nat) {
    forall k: nat :: EagerAt(r, s, sz, k) == EagerAt(m, s, sz, k)
  }

  /** The data pages of all other spaces are as they were. */
  ghost predicate OthersSame(m: Mem, r: Mem, s: nat) {
    forall t, k: nat :: t != s ==> PageAt(r, t, k) == PageAt(m, t, k)
  }

  /** Pages that user code may touch are data pages. */
  ghost predicate UserOwned(m: Mem, s: nat) {
    forall k: nat :: Valid(Leaf(m, s, k)) && User(Flags(Leaf(m, s, k))) ==> Ppn(Leaf(m, s, k)) in m.data
  }

  /** What every operation here keeps. */
  ghost predicate Quiet(m: Mem, r: Mem, s: nat) {
    Steady(m, r) && OthersSame(m, r, s) && UserOwned(r, s)
  }

  lemma {:induction false} QuietTrans(m: Mem, w: Mem, r: Mem, s: nat)
    requires Quiet(m, w, s) && Quiet(w, r, s)
    ensures Quiet(m, r, s)
  {
    hide Inv, Pool, PageAt, UserOwned;
  }

  lemma {:induction false} SameEagerTrans(m: Mem, w: Mem, r: Mem, s: nat, sz: nat)
    requires SameEager(m, w, s, sz) && SameEager(w, r, s, sz)
    ensures SameEager(m, r, s, sz)
  {
    hide EagerAt;
  }

  // ---- vmfault

  /** A new page at n shows at n and nowhere else. */
  lemma {:induction false} NewPageShows(m: Mem, r: Mem, s: nat, n: nat, q: nat, page: Page, perm: nat, t: nat, k: nat)
    requires perm < 1024 && NewPage(m, r, s, n, q, page, perm) && LeavesOk(m) && OneMapping(r)
    ensures PageAt(r, t, k) ==
            if t == s && k == n then Some(UPage(page, if perm % 2 == 1 then perm else perm + 1)) else PageAt(m, t, k)
  {
    hide Leaf, Valid, Ppn, Flags, MakePte;
    NewPageIs(m, r, s, n, q, page, perm);
    assert Leaf(r, t, k) == if t == s && k == n then MakePte(q, perm) else Leaf(m, t, k);
    assert !MapsTo(r, t, k, s, n) || (t == s && k == n);
  }

  lemma {:induction false} FaultQuiet(m: Mem, r: Mem, s: nat, n: nat, q: nat)
    requires Inv(m) && Inv(r) && NewPage(m, r, s, n, q, ZERO_PAGE, PTE_W + PTE_U + PTE_R) && UserOwned(m, s)
    ensures OthersSame(m, r, s) && UserOwned(r, s)
  {
    hide Leaf, Valid, Ppn, Flags, MakePte, PageAt, TablesOk, OneTree, PoolOk, NewPage;
    forall t, k: nat | t != s ensures PageAt(r, t, k) == PageAt(m, t, k) {
      NewPageShows(m, r, s, n, q, ZERO_PAGE, PTE_W + PTE_U + PTE_R, t, k);
    }
    FaultOwned(m, r, s, n, q);
  }

  lemma {:induction false} FaultOwned(m: Mem, r: Mem, s: nat, n: nat, q: nat)
    requires NewPage(m, r, s, n, q, ZERO_PAGE, PTE_W + PTE_U + PTE_R) && UserOwned(m, s)
    ensures UserOwned(r, s)
  {
    hide Leaf, Valid, Ppn, Flags, MakePte, User;
    NewPageIs(m, r, s, n, q, ZERO_PAGE, PTE_W + PTE_U + PTE_R);
    forall k: nat | Valid(Leaf(r, s, k)) && User(Flags(Leaf(r, s, k))) ensures Ppn(Leaf(r, s, k)) in r.data {
      assert k != n ==> Leaf(r, s, k) == Leaf(m, s, k);
    }
  }

  lemma {:induction false} FaultEager(m: Mem, r: Mem, s: nat, sz: nat, n: nat, q: nat)
    requires Inv(m) && Inv(r) && NewPage(m, r, s, n, q, ZERO_PAGE, PTE_W + PTE_U + PTE_R)
    requires n < PgUp(sz) && Leaf(m, s, n) == 0
    ensures SameEager(m, r, s, sz)
  {
    hide Leaf, Valid, Ppn, Flags, MakePte, PageAt, TablesOk, OneTree, PoolOk, NewPage;
    NothingValid();
    NewPageIs(m, r, s, n, q, ZERO_PAGE, PTE_W + PTE_U + PTE_R);
    forall k: nat ensures EagerAt(r, s, sz, k) == EagerAt(m, s, sz, k) {
      NewPageShows(m, r, s, n, q, ZERO_PAGE, PTE_W + PTE_U + PTE_R, s, k);
      if k != n {
        NewPageLeaf(m, r, s, n, q, ZERO_PAGE, PTE_W + PTE_U + PTE_R, k);
      }
    }
  }

  lemma {:induction false} NewPageLeaf(m: Mem, r: Mem, s: nat, n: nat, q: nat, page: Page, perm: nat, k: nat)
    requires perm < 1024 && NewPage(m, r, s, n, q, page, perm) && k != n
    ensures Leaf(r, s, k) == Leaf(m, s, k)
  {
    hide Leaf, MakePte;
  }

  /** Nothing but free pages and tables changed. */
  lemma {:induction false} SameLeavesQuiet(m: Mem, r: Mem, s: nat, sz: nat)
    requires SameLeaves(m, r) && r.data == m.data && Steady(m, r) && UserOwned(m, s)
    ensures Quiet(m, r, s) && SameEager(m, r, s, sz)
  {
    hide Leaf, Valid, Ppn, Flags, User, Inv, Pool;
  }

  /** Page k is not there, and no more than one page is left to make it of. */
  ghost predicate RanShort(m: Mem, s: nat, k: nat) {
    Leaf(m, s, k) == 0 && |m.free| <= 1
  }

  /** vmfault maps a page for this address. */
  ghost predicate Faults(m: Mem, s: nat, sz: nat, va: nat) {
    va < sz && Leaf(m, s, va / PGSIZE) == 0 && 1 + Missing(m, s, 2, va / PGSIZE) <= |m.free|
  }

  /** vmfault: gives an unmapped page below sz a zeroed page; the eager view does not change. */
  method Vmfault(vm: Vm, root: nat, va: nat, sz: nat, ghost s: nat) returns (q: Option<nat>)
    requires Inv(vm.View()) && s in vm.roots && vm.roots[s] == root && PgUp(sz) <= MAXPAGES && UserOwned(vm.View(), s)
    modifies vm`free, vm`tables, vm`data
    ensures Quiet(old(vm.View()), vm.View(), s) && SameEager(old(vm.View()), vm.View(), s, sz)
    ensures q.Some? <==> Faults(old(vm.View()), s, sz, va)
    ensures q.Some? ==> |old(vm.free)| <= |vm.free| + 3
    ensures q == None && va < sz && Leaf(old(vm.View()), s, va / PGSIZE) == 0 ==> RanShort(vm.View(), s, va / PGSIZE)
    ensures q.Some? ==> NewPage(old(vm.View()), vm.View(), s, va / PGSIZE, q.value, ZERO_PAGE, PTE_W + PTE_U + PTE_R)
  {
    hide Inv, Leaf, Pool, Missing, SameEager, NewPage, SameLeaves, UserOwned, MakePte;
    ghost var m := vm.View();
    SameLeavesSelf(m);
    SameLeavesQuiet(m, m, s, sz);
    if va >= sz {
      return None;
    }
    var n := va / PGSIZE;
    var pte := Lookup(vm, root, n, s);
    if Valid(pte) {
      NothingValid();
      return None;
    }
    InvalidIsClear(m, s, n);
    q := MapNew(vm, root, n, ZERO_PAGE, PTE_W + PTE_U + PTE_R, s);
    if q.Some? {
      FaultQuiet(m, vm.View(), s, n, q.value);
      FaultEager(m, vm.View(), s, sz, n, q.value);
    } else {
      SameLeavesQuiet(m, vm.View(), s, sz);
      SameLeafAt(m, vm.View(), s, n);
    }
  }

  /** A user access to a page that is not there comes out as on an eagerly allocated space, with pages to be had, if
      and only if its address is below sz or its page is not the last one. */
  lemma {:induction false} FaultAgreesIff(m: Mem, s: nat, sz: nat, va: nat)
    requires PgUp(sz) <= MAXPAGES && Leaf(m, s, va / PGSIZE) == 0 && 1 + Missing(m, s, 2, va / PGSIZE) <= |m.free|
    ensures (Faults(m, s, sz, va) <==> EagerAt(m, s, sz, va / PGSIZE).Some?) <==> va < sz || va / PGSIZE >= PgUp(sz)
  {
    hide Leaf, Missing;
    NothingValid();
    assert va < sz ==> va / PGSIZE < PgUp(sz);
  }

  /** Between sz and the end of its page the eager space has a zeroed page, and vmfault refuses. */
  lemma {:induction false} RefusedPastSize(m: Mem, s: nat, sz: nat, va: nat)
    requires PgUp(sz) <= MAXPAGES && sz <= va && va / PGSIZE < PgUp(sz) && Leaf(m, s, va / PGSIZE) == 0
    ensures EagerAt(m, s, sz, va / PGSIZE) == Some(UPage(ZERO_PAGE, LAZY_FLAGS)) && !Faults(m, s, sz, va)
  {
    hide Leaf;
    NothingValid();
  }

  /** Such addresses exist for every size that does not end on a page. */
  lemma {:induction false} PastSizeExists(sz: nat)
    ensures (exists va: nat :: sz <= va && va / PGSIZE < PgUp(sz)) <==> sz % PGSIZE != 0
  {
    if sz % PGSIZE != 0 {
      assert sz / PGSIZE < PgUp(sz);
    } else {
      forall va: nat | sz <= va ensures va / PGSIZE >= PgUp(sz) {
        assert va / PGSIZE >= sz / PGSIZE;
      }
    }
  }

  // ---- reaching a page

  /** The kernel may copy from or to page k on behalf of the process. */
  ghost predicate CanReach(m: Mem, s: nat, sz: nat, k: nat) {
    EagerAt(m, s, sz, k).Some? && User(EagerAt(m, s, sz, k).value.flags)
  }

  /** The page is mapped for the user, at physical page q. */
  ghost predicate Reached(m: Mem, s: nat, k: nat, q: nat) {
    Valid(Leaf(m, s, k)) && User(Flags(Leaf(m, s, k))) && Ppn(Leaf(m, s, k)) == q && q in m.data
  }

  /** walkaddr, and vmfault when it finds nothing. A page that cannot be reached is not the user's, unless memory ran
      short. */
  method Reach(vm: Vm, root: nat, n: nat, sz: nat, ghost s: nat) returns (q: Option<nat>, ghost short: bool)
    requires Inv(vm.View()) && s in vm.roots && vm.roots[s] == root && PgUp(sz) <= MAXPAGES && UserOwned(vm.View(), s)
    modifies vm`free, vm`tables, vm`data
    ensures Quiet(old(vm.View()), vm.View(), s) && SameEager(old(vm.View()), vm.View(), s, sz)
    ensures q.Some? ==> CanReach(old(vm.View()), s, sz, n) && Reached(vm.View(), s, n, q.value)
    ensures q == None && !short ==> !CanReach(old(vm.View()), s, sz, n)
    ensures short ==> q == None && |old(vm.free)| < 3 && RanShort(vm.View(), s, n)
    ensures q.Some? ==> |old(vm.free)| <= |vm.free| + 3
  {
    hide Inv, Leaf, Pool, SameEager, NewPage, SameLeaves, UserOwned, User, Ppn, Flags, MakePte;
    ghost var m := vm.View();
    short := false;
    SameLeavesSelf(m);
    SameLeavesQuiet(m, m, s, sz);
    NothingValid();
    if n < MAXPAGES {
      var pte := Lookup(vm, root, n, s);
      if Valid(pte) && User(pte) {
        UserFlag(pte);
        ReachedNow(m, s, sz, n);
        return Some(Ppn(pte)), false;
      }
      if Valid(pte) {
        UserFlag(pte);
        NotUser(m, s, sz, n);
      }
    }
    q := Vmfault(vm, root, n * PGSIZE, sz, s);
    if q.Some? {
      FaultReached(m, vm.View(), s, sz, n, q.value);
    } else if n * PGSIZE < sz && Leaf(m, s, n) == 0 {
      short := true;
    } else if Leaf(m, s, n) == 0 {
      assert n >= PgUp(sz);
    } else {
      assert Valid(Leaf(m, s, n)) by {
        if !Valid(Leaf(m, s, n)) {
          InvalidIsClear(m, s, n);
        }
      }
    }
  }

  lemma {:induction false} UserFlag(pte: nat)
    ensures User(Flags(pte)) == User(pte)
  {
    var p, f := pte / 1024, pte % 1024;
    FlagBits(p, f);
    LowOne(32 * p, f / 16);
  }

  lemma {:induction false} ReachedNow(m: Mem, s: nat, sz: nat, n: nat)
    requires Valid(Leaf(m, s, n)) && User(Flags(Leaf(m, s, n))) && UserOwned(m, s) && n < MAXPAGES
    ensures CanReach(m, s, sz, n) && Reached(m, s, n, Ppn(Leaf(m, s, n)))
  {
    hide Leaf, User, Ppn, Flags, Valid;
  }

  lemma {:induction false} NotUser(m: Mem, s: nat, sz: nat, n: nat)
    requires Valid(Leaf(m, s, n)) && !User(Flags(Leaf(m, s, n)))
    ensures !CanReach(m, s, sz, n)
  {
    hide Leaf, User, Ppn, Flags, Valid;
  }

  lemma {:induction false} FaultReached(m: Mem, r: Mem, s: nat, sz: nat, n: nat, q: nat)
    requires NewPage(m, r, s, n, q, ZERO_PAGE, PTE_W + PTE_U + PTE_R) && Leaf(m, s, n) == 0 && n < PgUp(sz) <= MAXPAGES
    ensures CanReach(m, s, sz, n) && Reached(r, s, n, q)
  {
    NothingValid();
    NewPageIs(m, r, s, n, q, ZERO_PAGE, PTE_W + PTE_U + PTE_R);
  }

  // ---- copying

  ghost function EagerByte(m: Mem, s: nat, sz: nat, a: nat): (b: Byte) {
    var u := EagerAt(m, s, sz, a / PGSIZE);
    if u.Some? then u.value.bytes[a % PGSIZE] else 0
  }

  /** d is what the process sees at a, and it may see it. */
  ghost predicate Reads(m: Mem, s: nat, sz: nat, a: nat, d: seq<Byte>) {
    forall i: nat :: i < |d| ==> ReadsAt(m, s, sz, a + i, d[i])
  }

  ghost predicate ReadsAt(m: Mem, s: nat, sz: nat, x: nat, b: Byte) {
    CanReach(m, s, sz, x / PGSIZE) && b == EagerByte(m, s, sz, x)
  }

  lemma {:induction false} ReachedPage(m: Mem, s: nat, sz: nat, k: nat, q: nat)
    requires Reached(m, s, k, q) && k < MAXPAGES
    ensures EagerAt(m, s, sz, k) == Some(UPage(m.data[q], Flags(Leaf(m, s, k))))
  {
  }

  /** A piece of a reached page extends what has been read. */
  lemma {:induction false} ReadsMore(m: Mem, r: Mem, s: nat, sz: nat, a: nat, d: seq<Byte>, q: nat, n: nat)
    requires SameEager(m, r, s, sz) && Reads(m, s, sz, a, d) && CanReach(m, s, sz, (a + |d|) / PGSIZE)
    requires Reached(r, s, (a + |d|) / PGSIZE, q) && n <= PGSIZE - (a + |d|) % PGSIZE
    ensures Reads(m, s, sz, a, d + r.data[q][(a + |d|) % PGSIZE..(a + |d|) % PGSIZE + n])
  {
    hide Leaf, Valid, Ppn, Flags, User;
    var va := a + |d|;
    ReachedPage(r, s, sz, va / PGSIZE, q);
    var more := d + r.data[q][va % PGSIZE..va % PGSIZE + n];
    forall i: nat | i < |more| ensures ReadsAt(m, s, sz, a + i, more[i]) {
      if i >= |d| {
        assert (a + i) / PGSIZE == va / PGSIZE && (a + i) % PGSIZE == va % PGSIZE + (i - |d|);
        assert EagerAt(m, s, sz, va / PGSIZE) == EagerAt(r, s, sz, va / PGSIZE);
      } else {
        assert more[i] == d[i];
      }
    }
  }

  /** Some byte of the range lies in page k. */
  predicate Touches(a: nat, len: nat, k: nat) {
    k * PGSIZE < a + len && a < (k + 1) * PGSIZE
  }

  /** How many pages the range lies in. */
  function Span(a: nat, len: nat): (n: int) {
    PgUp(a + len) - a / PGSIZE
  }

  /** copyin: the bytes the process sees, as on an eagerly allocated space; it fails only at a page the process may
      not touch, or when memory runs short. */
  method Copyin(vm: Vm, root: nat, srcva: nat, len: nat, sz: nat, ghost s: nat)
    returns (dst: Option<seq<Byte>>, ghost short: bool)
    requires Inv(vm.View()) && s in vm.roots && vm.roots[s] == root && PgUp(sz) <= MAXPAGES && UserOwned(vm.View(), s)
    modifies vm`free, vm`tables, vm`data
    ensures Quiet(old(vm.View()), vm.View(), s) && SameEager(old(vm.View()), vm.View(), s, sz)
    ensures dst.Some? ==> |dst.value| == len && Reads(old(vm.View()), s, sz, srcva, dst.value)
    ensures dst == None && !short ==> exists k: nat :: Touches(srcva, len, k) && !CanReach(old(vm.View()), s, sz, k)
    ensures short ==> |old(vm.free)| < 3 * Span(srcva, len)
    ensures short ==> dst == None && exists k: nat :: Touches(srcva, len, k) && RanShort(vm.View(), s, k)
  {
    hide Inv, Pool, Leaf, SameEager, OthersSame, UserOwned, CanReach, Reached, EagerByte, Reads, RanShort;
    ghost var m := vm.View();
    short := false;
    SameLeavesSelf(m);
    SameLeavesQuiet(m, m, s, sz);
    var got: seq<Byte> := [];
    ReadsNothing(m, s, sz, srcva);
    while |got| < len
      invariant |got| <= len && Quiet(m, vm.View(), s) && SameEager(m, vm.View(), s, sz) && Reads(m, s, sz, srcva, got)
      invariant |got| < len ==> |m.free| <= |vm.free| + 3 * ((srcva + |got|) / PGSIZE - srcva / PGSIZE)
      invariant !short
      decreases len - |got|
    {
      var va := srcva + |got|;
      ghost var w := vm.View();
      var q;
      q, short := Reach(vm, root, va / PGSIZE, sz, s);
      ReachSame(m, w, s, sz, va / PGSIZE);
      QuietTrans(m, w, vm.View(), s);
      SpanAt(srcva, len, |got|);
      SameEagerTrans(m, w, vm.View(), s, sz);
      if q == None {
        assert Touches(srcva, len, va / PGSIZE);
        return None, short;
      }
      var n := PGSIZE - va % PGSIZE;
      if n > len - |got| {
        n := len - |got|;
      }
      ReadsMore(m, vm.View(), s, sz, srcva, got, q.value, n);
      ReachedIn(vm.View(), s, va / PGSIZE, q.value);
      got := got + vm.data[q.value][va % PGSIZE..va % PGSIZE + n];
    }
    dst := Some(got);
  }

  lemma {:induction false} SpanAt(a: nat, len: nat, i: nat)
    requires i < len
    ensures (a + i) / PGSIZE - a / PGSIZE < Span(a, len)
    ensures var n := PGSIZE - (a + i) % PGSIZE; (a + (i + n)) / PGSIZE == (a + i) / PGSIZE + 1
  {
  }

  lemma {:induction false} ReadsNothing(m: Mem, s: nat, sz: nat, a: nat)
    ensures Reads(m, s, sz, a, [])
  {
  }

  lemma {:induction false} ReachSame(m: Mem, w: Mem, s: nat, sz: nat, k: nat)
    requires SameEager(m, w, s, sz)
    ensures CanReach(w, s, sz, k) == CanReach(m, s, sz, k)
  {
    hide EagerAt;
  }

  lemma {:induction false} ReachedIn(m: Mem, s: nat, k: nat, q: nat)
    requires Reached(m, s, k, q)
    ensures q in m.data
  {
  }

  // ---- strings

  /** walkaddr finds page k. */
  ghost predicate UserLeaf(m: Mem, s: nat, k: nat) {
    k < MAXPAGES && Valid(Leaf(m, s, k)) && User(Flags(Leaf(m, s, k)))
  }

  /** d and a NUL behind it are what the process sees at a, and d has no NUL. */
  ghost predicate EagerString(m: Mem, s: nat, sz: nat, a: nat, d: seq<Byte>) {
    && Reads(m, s, sz, a, d) && ReadsAt(m, s, sz, a + |d|, 0)
    && forall i :: 0 <= i < |d| ==> d[i] != 0
  }

  /** Every page from a up to and including that of the byte at a + n is mapped for the user. */
  ghost predicate AllThere(m: Mem, s: nat, a: nat, n: nat) {
    forall x: nat :: a <= x <= a + n ==> ThereAt(m, s, x)
  }

  ghost predicate ThereAt(m: Mem, s: nat, x: nat) {
    UserLeaf(m, s, x / PGSIZE)
  }

  lemma {:induction false} ByteRead(m: Mem, s: nat, sz: nat, a: nat, d: seq<Byte>, i: nat)
    requires Reads(m, s, sz, a, d) && i < |d|
    ensures d[i] == EagerByte(m, s, sz, a + i)
  {
    assert ReadsAt(m, s, sz, a + i, d[i]);
  }

  /** A process sees at most one string at an address. */
  lemma {:induction false} StringOnce(m: Mem, s: nat, sz: nat, a: nat, d: seq<Byte>, e: seq<Byte>)
    requires EagerString(m, s, sz, a, d) && EagerString(m, s, sz, a, e)
    ensures d == e
  {
    hide CanReach, EagerByte, Reads;
    if |d| < |e| {
      ByteRead(m, s, sz, a, e, |d|);
    } else if |e| < |d| {
      ByteRead(m, s, sz, a, d, |e|);
    } else {
      forall i: nat | i < |d| ensures d[i] == e[i] {
        ByteRead(m, s, sz, a, d, i);
        ByteRead(m, s, sz, a, e, i);
      }
    }
  }

  /** What copyinstr has read so far: no NUL yet, and all of it mapped. */
  ghost predicate SoFar(m: Mem, s: nat, sz: nat, a: nat, got: seq<Byte>) {
    && Reads(m, s, sz, a, got) && (forall i :: 0 <= i < |got| ==> got[i] != 0)
    && forall x: nat :: a <= x < a + |got| ==> ThereAt(m, s, x)
  }

  /** No string ends within what has been read. */
  lemma {:induction false} NotWithin(m: Mem, s: nat, sz: nat, a: nat, got: seq<Byte>, d: seq<Byte>)
    requires SoFar(m, s, sz, a, got) && EagerString(m, s, sz, a, d)
    ensures |d| >= |got|
  {
    hide CanReach, EagerByte, Reads;
    if |d| < |got| {
      ByteRead(m, s, sz, a, got, |d|);
    }
  }

  /** The inner loop of copyinstr: up to n bytes of a page from lo on, or up to a NUL. */
  method TakeToNul(page: Page, lo: nat, n: nat) returns (got: seq<Byte>, nul: bool)
    requires lo + n <= PGSIZE
    ensures |got| <= n && got == page[lo..lo + |got|] && (forall i :: 0 <= i < |got| ==> got[i] != 0)
    ensures nul <==> |got| < n
    ensures nul ==> page[lo + |got|] == 0
  {
    got := [];
    while |got| < n
      invariant |got| <= n && got == page[lo..lo + |got|] && forall i :: 0 <= i < |got| ==> got[i] != 0
    {
      if page[lo + |got|] == 0 {
        return got, true;
      }
      got := got + [page[lo + |got|]];
    }
    nul := false;
  }

  /** A page that walkaddr finds, as the process sees it. */
  lemma {:induction false} LeafPage(m: Mem, s: nat, sz: nat, k: nat)
    requires UserLeaf(m, s, k) && UserOwned(m, s)
    ensures Ppn(Leaf(m, s, k)) in m.data && CanReach(m, s, sz, k)
    ensures EagerAt(m, s, sz, k) == Some(UPage(m.data[Ppn(Leaf(m, s, k))], Flags(Leaf(m, s, k))))
  {
    hide Leaf, Valid, User, Ppn, Flags;
  }

  lemma {:induction false} SoFarMore(m: Mem, s: nat, sz: nat, a: nat, got: seq<Byte>, more: seq<Byte>, page: Page)
    requires SoFar(m, s, sz, a, got)
    requires var va := a + |got|;
             && UserLeaf(m, s, va / PGSIZE) && UserOwned(m, s) && va % PGSIZE + |more| <= PGSIZE
             && Ppn(Leaf(m, s, va / PGSIZE)) in m.data && page == m.data[Ppn(Leaf(m, s, va / PGSIZE))]
             && more == page[va % PGSIZE..va % PGSIZE + |more|]
    requires forall i :: 0 <= i < |more| ==> more[i] != 0
    ensures SoFar(m, s, sz, a, got + more)
    ensures var lo := (a + |got|) % PGSIZE + |more|; lo < PGSIZE ==> ReadsAt(m, s, sz, a + |got + more|, page[lo])
    ensures (a + |got|) % PGSIZE + |more| < PGSIZE ==> ThereAt(m, s, a + |got + more|)
  {
    hide Leaf, Valid, User, Ppn, Flags, UserOwned, EagerAt, CanReach, UserLeaf;
    var va := a + |got|;
    LeafPage(m, s, sz, va / PGSIZE);
    var all := got + more;
    forall i: nat | i < |all| ensures ReadsAt(m, s, sz, a + i, all[i]) {
      if i >= |got| {
        SamePage(a, |got|, i - |got|);
        assert all[i] == page[va % PGSIZE + (i - |got|)];
      } else {
        assert all[i] == got[i];
      }
    }
    forall x: nat | a <= x < a + |all| ensures ThereAt(m, s, x) {
      if x >= va {
        SamePage(a, |got|, x - va);
      }
    }
    if va % PGSIZE + |more| < PGSIZE {
      SamePage(a, |got|, |more|);
    }
  }

  lemma {:induction false} SamePage(a: nat, n: nat, i: nat)
    requires (a + n) % PGSIZE + i < PGSIZE
    ensures (a + (n + i)) / PGSIZE == (a + n) / PGSIZE && (a + (n + i)) % PGSIZE == (a + n) % PGSIZE + i
  {
  }

  /** copyinstr: it returns the string that the process sees at srcva if and only if that string ends within max bytes
      and every page up to that of its NUL is mapped already; it does not fault pages in. */
  method Copyinstr(vm: Vm, root: nat, srcva: nat, max: nat, ghost sz: nat, ghost s: nat) returns (r: Option<seq<Byte>>)
    requires Inv(vm.View()) && s in vm.roots && vm.roots[s] == root && UserOwned(vm.View(), s)
    modifies vm`free, vm`tables
    ensures vm.View() == old(vm.View())
    ensures forall d :: r == Some(d) <==> Fetches(vm.View(), s, sz, srcva, max, d)
  {
    hide Inv, Leaf, Valid, User, Ppn, Flags, UserOwned, SoFar, Fetches, UserLeaf;
    ghost var m := vm.View();
    var got: seq<Byte> := [];
    SoFarNothing(m, s, sz, srcva);
    while |got| < max
      invariant |got| <= max && vm.View() == m && SoFar(m, s, sz, srcva, got)
      decreases max - |got|
    {
      var va := srcva + |got|;
      var pte := 0;
      if va / PGSIZE < MAXPAGES {
        pte := Lookup(vm, root, va / PGSIZE, s);
      }
      if !(Valid(pte) && User(pte)) {
        NoLeafNoString(m, s, sz, srcva, max, got, pte);
        return None;
      }
      LeafFound(m, s, va / PGSIZE, pte);
      LeafPage(m, s, sz, va / PGSIZE);
      var n := PGSIZE - va % PGSIZE;
      if n > max - |got| {
        n := max - |got|;
      }
      var more, nul := TakeToNul(vm.data[Ppn(pte)], va % PGSIZE, n);
      SoFarMore(m, s, sz, srcva, got, more, vm.data[Ppn(pte)]);
      got := got + more;
      if nul {
        StringFound(m, s, sz, srcva, max, got);
        return Some(got);
      }
    }
    TooLong(m, s, sz, srcva, max, got);
    r := None;
  }

  /** copyinstr returns d. */
  ghost predicate Fetches(m: Mem, s: nat, sz: nat, a: nat, max: nat, d: seq<Byte>) {
    |d| < max && EagerString(m, s, sz, a, d) && AllThere(m, s, a, |d|)
  }

  lemma {:induction false} SoFarNothing(m: Mem, s: nat, sz: nat, a: nat)
    ensures SoFar(m, s, sz, a, [])
  {
  }

  lemma {:induction false} LeafFound(m: Mem, s: nat, k: nat, pte: nat)
    requires Valid(pte) && User(pte) && pte == if k < MAXPAGES then Leaf(m, s, k) else 0
    ensures UserLeaf(m, s, k)
  {
    hide Leaf, User, Flags;
    UserFlag(pte);
    NothingValid();
  }

  lemma {:induction false} NoLeafNoString(m: Mem, s: nat, sz: nat, a: nat, max: nat, got: seq<Byte>, pte: nat)
    requires SoFar(m, s, sz, a, got) && !(Valid(pte) && User(pte))
    requires pte == if (a + |got|) / PGSIZE < MAXPAGES then Leaf(m, s, (a + |got|) / PGSIZE) else 0
    ensures forall d :: !Fetches(m, s, sz, a, max, d)
  {
    hide Leaf, User, Flags, SoFar, EagerString, Valid;
    UserFlag(pte);
    assert !ThereAt(m, s, a + |got|);
    forall d ensures !Fetches(m, s, sz, a, max, d) {
      if Fetches(m, s, sz, a, max, d) {
        NotWithin(m, s, sz, a, got, d);
      }
    }
  }

  lemma {:induction false} TooLong(m: Mem, s: nat, sz: nat, a: nat, max: nat, got: seq<Byte>)
    requires SoFar(m, s, sz, a, got) && |got| >= max
    ensures forall d :: !Fetches(m, s, sz, a, max, d)
  {
    hide SoFar, EagerString, AllThere;
    forall d ensures !Fetches(m, s, sz, a, max, d) {
      if EagerString(m, s, sz, a, d) {
        NotWithin(m, s, sz, a, got, d);
      }
    }
  }

  lemma {:induction false} StringFound(m: Mem, s: nat, sz: nat, a: nat, max: nat, got: seq<Byte>)
    requires SoFar(m, s, sz, a, got) && |got| < max && ReadsAt(m, s, sz, a + |got|, 0) && ThereAt(m, s, a + |got|)
    ensures forall d :: got == d <==> Fetches(m, s, sz, a, max, d)
  {
    hide ReadsAt, ThereAt, Reads;
    assert EagerString(m, s, sz, a, got);
    assert AllThere(m, s, a, |got|);
    forall d | Fetches(m, s, sz, a, max, d) ensures d == got {
      StringOnce(m, s, sz, a, d, got);
    }
  }

  /** On a page that was grown lazily and not touched yet the process sees the empty string, and copyinstr fails. */
  lemma {:induction false} UntouchedString(m: Mem, s: nat, sz: nat, va: nat, max: nat)
    requires va / PGSIZE < PgUp(sz) <= MAXPAGES && Leaf(m, s, va / PGSIZE) == 0
    ensures EagerString(m, s, sz, va, []) && forall d :: !Fetches(m, s, sz, va, max, d)
  {
    hide Leaf, Flags;
    NothingValid();
    forall d ensures !Fetches(m, s, sz, va, max, d) {
      assert !ThereAt(m, s, va);
    }
  }

  /** copyinstr and copyin agree on a string, memory permitting, if and only if its pages are there. */
  lemma {:induction false} StringAgreesIff(m: Mem, s: nat, sz: nat, a: nat, max: nat, d: seq<Byte>)
    requires EagerString(m, s, sz, a, d) && |d| < max
    ensures (exists e :: Fetches(m, s, sz, a, max, e)) <==> AllThere(m, s, a, |d|)
  {
    hide AllThere, EagerString;
    if AllThere(m, s, a, |d|) {
      assert Fetches(m, s, sz, a, max, d);
    }
    forall e | Fetches(m, s, sz, a, max, e) ensures e == d {
      StringOnce(m, s, sz, a, d, e);
    }
  }

  // ---- copying out

  /** The kernel may copy to page k on behalf of the process. */
  ghost predicate CanStore(m: Mem, s: nat, sz: nat, k: nat) {
    CanReach(m, s, sz, k) && Writable(EagerAt(m, s, sz, k).value.flags)
  }

  /** The kernel may copy to all n addresses from a on. */
  ghost predicate StoresAll(m: Mem, s: nat, sz: nat, a: nat, n: nat) {
    forall x: nat :: a <= x < a + n ==> StoresAt(m, s, sz, x)
  }

  ghost predicate StoresAt(m: Mem, s: nat, sz: nat, x: nat) {
    CanStore(m, s, sz, x / PGSIZE)
  }

  lemma {:induction false} StoresNone(m: Mem, s: nat, sz: nat, a: nat)
    ensures StoresAll(m, s, sz, a, 0)
  {
  }

  lemma {:induction false} StoresMore(m: Mem, s: nat, sz: nat, a: nat, n: nat, e: nat)
    requires StoresAll(m, s, sz, a, n) && CanStore(m, s, sz, (a + n) / PGSIZE) && e <= PGSIZE - (a + n) % PGSIZE
    ensures StoresAll(m, s, sz, a, n + e)
  {
    hide CanStore;
    forall x: nat | a <= x < a + n + e ensures StoresAt(m, s, sz, x) {
      if x >= a + n {
        assert x / PGSIZE == (a + n) / PGSIZE;
      }
    }
  }

  /** The bits of a page's flags decide: the kernel copies from and to pages with U, and to those that also have W. */
  lemma {:induction false} FlagsDecide(m: Mem, s: nat, sz: nat, k: nat, v: nat, r: nat, w: nat, x: nat, u: nat,
                                       rest: nat)
    requires v <= 1 && r <= 1 && w <= 1 && x <= 1 && u <= 1 && EagerAt(m, s, sz, k).Some?
    requires EagerAt(m, s, sz, k).value.flags ==
             v * PTE_V + r * PTE_R + w * PTE_W + x * PTE_X + u * PTE_U + 32 * rest
    ensures CanReach(m, s, sz, k) <==> u == 1
    ensures CanStore(m, s, sz, k) <==> u == 1 && w == 1
  {
    hide EagerAt, User, Writable;
    PteBits(v, r, w, x, u, rest);
  }

  /** The kernel copies into the pages of a program segment, or into memory grown for it, exactly if they were made
      with PTE_W: not into program text. */
  lemma {:induction false} GrownStore(m: Mem, r: Mem, s: nat, sz: nat, lo: nat, hi: nat, xperm: nat, k: nat)
    requires xperm in {0, PTE_W, PTE_X, PTE_W + PTE_X} && Added(m, r, s, lo, hi, ZeroPages(xperm))
    requires lo <= k < hi <= MAXPAGES
    ensures CanReach(r, s, sz, k) && (CanStore(r, s, sz, k) <==> xperm in {PTE_W, PTE_W + PTE_X})
  {
    hide Leaf, CanReach, CanStore, MappedIn;
    var (w, x) := (if xperm in {PTE_W, PTE_W + PTE_X} then 1 else 0, if xperm in {PTE_X, PTE_W + PTE_X} then 1 else 0);
    assert IsNew(m, r, s, k, ZeroPages(xperm)(k).value);
    FlagsDecide(r, s, sz, k, 1, 1, w, x, 1, 0);
  }

  /** copyout to a page of program text: by its contract nothing is stored. */
  lemma {:induction false} TextStays(m: Mem, w: Mem, r: Mem, s: nat, sz: nat, lo: nat, hi: nat, xperm: nat, a: nat,
                                     d: seq<Byte>)
    requires xperm in {0, PTE_X} && Added(m, w, s, lo, hi, ZeroPages(xperm)) && lo <= a / PGSIZE < hi <= MAXPAGES
    requires StoresAll(w, s, sz, a, |d|) && Wrote(w, r, s, sz, a, d)
    ensures d == [] && forall x: nat :: EagerByte(r, s, sz, x) == EagerByte(w, s, sz, x)
  {
    hide CanStore, Added, EagerByte, EagerAt;
    assert d != [] ==> StoresAt(w, s, sz, a);
    GrownStore(m, w, s, sz, lo, hi, xperm, a / PGSIZE);
  }

  /** From m to r the bytes d went to address a of the eager view; pages, flags and other bytes are as they were. */
  ghost predicate Wrote(m: Mem, r: Mem, s: nat, sz: nat, a: nat, d: seq<Byte>) {
    && (forall k: nat :: SameKind(EagerAt(m, s, sz, k), EagerAt(r, s, sz, k)))
    && (forall x: nat :: EagerByte(r, s, sz, x) == if a <= x < a + |d| then d[x - a] else EagerByte(m, s, sz, x))
  }

  predicate SameKind(u: Option<UPage>, v: Option<UPage>) {
    u.Some? == v.Some? && (u.Some? ==> u.value.flags == v.value.flags)
  }

  lemma {:induction false} WroteSame(m: Mem, w: Mem, r: Mem, s: nat, sz: nat, a: nat, d: seq<Byte>)
    requires Wrote(m, w, s, sz, a, d) && SameEager(w, r, s, sz)
    ensures Wrote(m, r, s, sz, a, d)
  {
    hide EagerAt;
    forall x: nat ensures EagerByte(r, s, sz, x) == EagerByte(w, s, sz, x) {
      assert EagerAt(r, s, sz, x / PGSIZE) == EagerAt(w, s, sz, x / PGSIZE);
    }
  }

  /** Changing a data page shows at the one place that maps it. */
  lemma {:induction false} ChangedShows(m: Mem, q: nat, page: Page, s: nat, k: nat, t: nat, j: nat)
    requires SameLeaves(m, Changed(m, q, page)) && OneMapping(m) && Reached(m, s, k, q)
    ensures Leaf(Changed(m, q, page), t, j) == Leaf(m, t, j)
    ensures PageAt(Changed(m, q, page), t, j) ==
            if t == s && j == k then Some(UPage(page, Flags(Leaf(m, s, k)))) else PageAt(m, t, j)
  {
    hide Leaf, Valid, Ppn, Flags, User;
    assert !MapsTo(m, t, j, s, k) || (t == s && j == k);
  }

  lemma {:induction false} ChangedQuiet(m: Mem, q: nat, page: Page, s: nat, k: nat)
    requires Inv(m) && UserOwned(m, s) && Reached(m, s, k, q)
    ensures Quiet(m, Changed(m, q, page), s) && SameLeaves(m, Changed(m, q, page))
  {
    hide Leaf, Valid, Ppn, Flags, User, TablesOk, OneTree, PoolOk, PageAt;
    var r := Changed(m, q, page);
    ChangedInv(m, q, page);
    SamePoolSet(m, r);
    forall t, j: nat | t != s ensures PageAt(r, t, j) == PageAt(m, t, j) {
      ChangedShows(m, q, page, s, k, t, j);
    }
  }

  lemma {:induction false} PatchedByte(m: Mem, q: nat, lo: nat, d: seq<Byte>, s: nat, sz: nat, k: nat, x: nat)
    requires Inv(m) && Reached(m, s, k, q) && k < MAXPAGES && lo + |d| <= PGSIZE
    requires SameLeaves(m, Changed(m, q, PatchPage(m.data[q], lo, d)))
    ensures var r := Changed(m, q, PatchPage(m.data[q], lo, d));
            && EagerByte(r, s, sz, x) == (if k * PGSIZE + lo <= x < k * PGSIZE + lo + |d| then d[x - k * PGSIZE - lo]
               else EagerByte(m, s, sz, x))
            && SameKind(EagerAt(m, s, sz, x), EagerAt(r, s, sz, x))
  {
    hide Leaf, Valid, Ppn, Flags, User, TablesOk, OneTree, PoolOk, PageAt, LeavesOk;
    ChangedShows(m, q, PatchPage(m.data[q], lo, d), s, k, s, x / PGSIZE);
    ChangedShows(m, q, PatchPage(m.data[q], lo, d), s, k, s, x);
    ReachedPage(m, s, sz, k, q);
    ReachedPage(Changed(m, q, PatchPage(m.data[q], lo, d)), s, sz, k, q);
  }

  function PatchPage(page: Page, lo: nat, d: seq<Byte>): (r: Page)
    requires lo + |d| <= PGSIZE
  {
    page[..lo] + d + page[lo + |d|..]
  }

  lemma {:induction false} WroteMore(m: Mem, w: Mem, s: nat, sz: nat, a: nat, d: seq<Byte>, q: nat, e: seq<Byte>)
    requires Inv(w) && Wrote(m, w, s, sz, a, d) && Reached(w, s, (a + |d|) / PGSIZE, q) && (a + |d|) / PGSIZE < MAXPAGES
    requires |e| <= PGSIZE - (a + |d|) % PGSIZE
    requires SameLeaves(w, Changed(w, q, PatchPage(w.data[q], (a + |d|) % PGSIZE, e)))
    ensures Wrote(m, Changed(w, q, PatchPage(w.data[q], (a + |d|) % PGSIZE, e)), s, sz, a, d + e)
  {
    hide Inv, Leaf, EagerAt, EagerByte, Reached, Changed, PatchPage, SameLeaves;
    ReachedIn(w, s, (a + |d|) / PGSIZE, q);
    var va := a + |d|;
    var r := Changed(w, q, PatchPage(w.data[q], va % PGSIZE, e));
    assert va / PGSIZE * PGSIZE + va % PGSIZE == va;
    forall x: nat ensures SameKind(EagerAt(m, s, sz, x), EagerAt(r, s, sz, x))
                          && EagerByte(r, s, sz, x) == if a <= x < a + |d + e| then (d + e)[x - a]
                             else EagerByte(m, s, sz, x) {
      PatchedByte(w, q, va % PGSIZE, e, s, sz, va / PGSIZE, x);
    }
  }

  /** copyout: the bytes go where the process sees them, as on an eagerly allocated space, up to the first page the
      process may not write, or until memory runs short. */
  method Copyout(vm: Vm, root: nat, dstva: nat, src: seq<Byte>, sz: nat, ghost s: nat)
    returns (ok: bool, ghost done: nat, ghost short: bool)
    requires Inv(vm.View()) && s in vm.roots && vm.roots[s] == root && PgUp(sz) <= MAXPAGES && UserOwned(vm.View(), s)
    modifies vm`free, vm`tables, vm`data
    ensures Quiet(old(vm.View()), vm.View(), s) && done <= |src| && (ok <==> done == |src|)
    ensures Wrote(old(vm.View()), vm.View(), s, sz, dstva, src[..done])
    ensures StoresAll(old(vm.View()), s, sz, dstva, done)
    ensures !ok && !short ==> !CanStore(old(vm.View()), s, sz, (dstva + done) / PGSIZE)
    ensures short ==> |old(vm.free)| < 3 * Span(dstva, |src|)
    ensures short ==> !ok && RanShort(vm.View(), s, (dstva + done) / PGSIZE)
  {
    hide Inv, Pool, Leaf, SameEager, OthersSame, UserOwned, Reached, Wrote, CanStore, Writable, EagerAt, StoresAll,
         RanShort;
    ghost var m := vm.View();
    short := false;
    done := 0;
    SameLeavesSelf(m);
    SameLeavesQuiet(m, m, s, sz);
    WroteNothing(m, s, sz, dstva);
    StoresNone(m, s, sz, dstva);
    var tot: nat := 0;
    while tot < |src|
      invariant tot == done <= |src| && Quiet(m, vm.View(), s) && Wrote(m, vm.View(), s, sz, dstva, src[..done])
      invariant StoresAll(m, s, sz, dstva, done)
      invariant tot < |src| ==> |m.free| <= |vm.free| + 3 * ((dstva + tot) / PGSIZE - dstva / PGSIZE)
      invariant !short
      decreases |src| - tot
    {
      var va := dstva + tot;
      ghost var w := vm.View();
      if va / PGSIZE >= MAXPAGES {
        NoSuchPage(m, s, sz, va / PGSIZE);
        return false, done, false;
      }
      var q;
      q, short := Reach(vm, root, va / PGSIZE, sz, s);
      ghost var x := vm.View();
      SpanAt(dstva, |src|, tot);
      QuietTrans(m, w, x, s);
      WroteSame(m, w, x, s, sz, dstva, src[..done]);
      StoreSame(m, w, s, sz, dstva, src[..done], va / PGSIZE);
      if q == None {
        return false, done, short;
      }
      var pte := Lookup(vm, root, va / PGSIZE, s);
      StoreIff(w, x, s, sz, va / PGSIZE, q.value);
      if !Writable(pte) {
        return false, done, false;
      }
      var n := PGSIZE - va % PGSIZE;
      if n > |src| - tot {
        n := |src| - tot;
      }
      ReachedIn(x, s, va / PGSIZE, q.value);
      ghost var page := PatchPage(x.data[q.value], va % PGSIZE, src[tot..tot + n]);
      ChangedQuiet(x, q.value, page, s, va / PGSIZE);
      WroteMore(m, x, s, sz, dstva, src[..done], q.value, src[tot..tot + n]);
      assert src[..tot] + src[tot..tot + n] == src[..tot + n];
      StoresMore(m, s, sz, dstva, done, n);
      vm.data := vm.data[q.value := PatchPage(vm.data[q.value], va % PGSIZE, src[tot..tot + n])];
      QuietTrans(m, x, vm.View(), s);
      tot := tot + n;
      done := tot;
    }
    ok := true;
  }

  lemma {:induction false} WroteNothing(m: Mem, s: nat, sz: nat, a: nat)
    ensures Wrote(m, m, s, sz, a, [])
  {
  }

  lemma {:induction false} NoSuchPage(m: Mem, s: nat, sz: nat, k: nat)
    requires k >= MAXPAGES
    ensures !CanStore(m, s, sz, k)
  {
  }

  /** What may be written does not depend on what has been written. */
  lemma {:induction false} StoreSame(m: Mem, w: Mem, s: nat, sz: nat, a: nat, d: seq<Byte>, k: nat)
    requires Wrote(m, w, s, sz, a, d)
    ensures CanStore(w, s, sz, k) == CanStore(m, s, sz, k) && (CanStore(w, s, sz, k) ==> CanReach(w, s, sz, k))
  {
    hide EagerAt, EagerByte;
    assert SameKind(EagerAt(m, s, sz, k), EagerAt(w, s, sz, k));
  }

  lemma {:induction false} StoreIff(w: Mem, x: Mem, s: nat, sz: nat, k: nat, q: nat)
    requires SameEager(w, x, s, sz) && CanReach(w, s, sz, k) && Reached(x, s, k, q) && k < MAXPAGES
    ensures CanStore(w, s, sz, k) <==> Writable(Leaf(x, s, k))
  {
    hide Leaf, Valid, Ppn, Flags, User, Writable;
    ReachedPage(x, s, sz, k, q);
    assert EagerAt(w, s, sz, k) == EagerAt(x, s, sz, k);
    WriteFlag(Leaf(x, s, k));
  }

  lemma {:induction false} WriteFlag(pte: nat)
    ensures Writable(Flags(pte)) == Writable(pte)
  {
    var p, f := pte / 1024, pte % 1024;
    FlagBits(p, f);
    LowOne(128 * p, f / 4);
  }
}
