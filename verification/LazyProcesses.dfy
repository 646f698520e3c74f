/** Runs of processes on the page tables themselves: each step is what the operation on the tables promises, and the
    memory every process sees is that of eager allocation. */
module LazyProcesses {
  import opened Blocks
  import opened VmSpec
  import opened PageTable
  import opened UserMemory
  import opened LazyMemory
  import opened LazyRuns

  // ---- a space in the tables

  ghost predicate ShowsAt(m: Mem, s: nat, x: Space, k: nat) {
    if k in x.pages then PageAt(m, s, k) == Some(x.pages[k]) else Leaf(m, s, k) == 0
  }

  /** Space s maps exactly the pages of x, below the trapframe. */
  ghost predicate Shows(m: Mem, s: nat, x: Space) {
    x.sz <= TRAPFRAME && Within(x) && forall k: nat :: k < USERPAGES ==> ShowsAt(m, s, x, k)
  }

  lemma {:induction false} SizeBound(x: Space)
    requires x.sz <= TRAPFRAME
    ensures PgUp(x.sz) <= USERPAGES
  {
  }

  /** What the process sees of a space: its pages, and zeros where they are missing. */
  lemma {:induction false} ShowsEager(m: Mem, s: nat, x: Space, k: nat)
    requires Shows(m, s, x) && k < USERPAGES
    ensures EagerAt(m, s, x.sz, k) == if k in Full(x).pages then Some(Full(x).pages[k]) else None
  {
    hide Leaf, Valid, Ppn, Flags;
    NothingValid();
    assert ShowsAt(m, s, x, k);
  }

  /** At page k of space s the tables say what they said. */
  ghost predicate SameAt(m: Mem, r: Mem, s: nat, k: nat) {
    Leaf(r, s, k) == Leaf(m, s, k) && PageAt(r, s, k) == PageAt(m, s, k)
  }

  lemma {:induction false} SameShows(m: Mem, r: Mem, s: nat, x: Space)
    requires Shows(m, s, x) && forall k: nat :: SameAt(m, r, s, k)
    ensures Shows(r, s, x)
  {
    hide Leaf, PageAt, Within;
    forall k: nat | k < USERPAGES ensures ShowsAt(r, s, x, k) {
      assert SameAt(m, r, s, k) && ShowsAt(m, s, x, k);
    }
  }

  // ---- what the commands do to the tables

  /** Page q, zeroed, is new at page k of space s. */
  ghost predicate ZeroedAt(m: Mem, r: Mem, s: nat, k: nat, q: nat) {
    NewPage(m, r, s, k, q, ZERO_PAGE, PTE_W + PTE_U + PTE_R)
  }

  /** vmfault for an address below sz in page k. */
  ghost predicate FaultsIn(m: Mem, r: Mem, s: nat, sz: nat, k: nat) {
    if k < PgUp(sz) && Leaf(m, s, k) == 0 then exists q: nat :: ZeroedAt(m, r, s, k, q)
    else r == m
  }

  ghost predicate MayWrite(m: Mem, s: nat, k: nat) {
    var u := PageAt(m, s, k);
    u.Some? && Writable(u.value.flags) && User(u.value.flags)
  }

  /** A write to page k, if it is the user's and writable. */
  ghost predicate Overwrites(m: Mem, r: Mem, s: nat, k: nat, page: Page) {
    if MayWrite(m, s, k) then r == Changed(m, Ppn(Leaf(m, s, k)), page) else r == m
  }

  ghost predicate StoresVia(m: Mem, w: Mem, r: Mem, s: nat, sz: nat, k: nat, page: Page) {
    FaultsIn(m, w, s, sz, k) && Inv(w) && Overwrites(w, r, s, k, page)
  }

  /** A user store that finds its page or faults it in. */
  ghost predicate PutsVia(m: Mem, w: Mem, r: Mem, s: nat, sz: nat, va: nat, b: Byte) {
    var k := va / PGSIZE;
    && FaultsIn(m, w, s, sz, k) && Inv(w) && PageAt(w, s, k).Some?
    && Overwrites(w, r, s, k, PageAt(w, s, k).value.bytes[va % PGSIZE := b])
  }

  /** The page of a user store is there, or vmfault gives it one. */
  ghost predicate Touchable(m: Mem, s: nat, sz: nat, va: nat) {
    va / PGSIZE < PgUp(sz) && (Leaf(m, s, va / PGSIZE) != 0 || va < sz)
  }

  /** The command took space s, of size sz, from m to r, as uvmalloc, uvmdealloc, vmfault and copyout promise. */
  ghost predicate Does(m: Mem, r: Mem, s: nat, sz: nat, c: Cmd) {
    match c
    case Grow(n, lazily) =>
      if lazily || sz + n > TRAPFRAME then r == m else Added(m, r, s, PgUp(sz), PgUp(sz + n), ZeroPages(PTE_W))
    case Shrink(n) =>
      if n <= sz && PgUp(sz - n) <= PgUp(sz) then Unmapped(m, r, s, PgUp(sz - n), PgUp(sz) - PgUp(sz - n), true)
        else r == m
    case Fault(k) => FaultsIn(m, r, s, sz, k)
    case Store(k, page) => if k < PgUp(sz) then exists w :: StoresVia(m, w, r, s, sz, k, page) else r == m
    case Put(va, b) => if Touchable(m, s, sz, va) then exists w :: PutsVia(m, w, r, s, sz, va, b) else r == m
  }

  // ---- a command in its own space

  lemma {:induction false} Grew(m: Mem, r: Mem, s: nat, x: Space, n: nat)
    requires Inv(r) && Shows(m, s, x) && x.sz + n <= TRAPFRAME
    requires Added(m, r, s, PgUp(x.sz), PgUp(x.sz + n), ZeroPages(PTE_W))
    ensures Shows(r, s, Next(x, Grow(n, false)))
  {
    hide Leaf, Valid, Ppn, Flags, Inv;
    PgUpMonotone(x.sz, x.sz + n);
    var y := Next(x, Grow(n, false));
    forall k: nat | k < USERPAGES ensures ShowsAt(r, s, y, k) {
      assert ShowsAt(m, s, x, k);
      if PgUp(x.sz) <= k < PgUp(x.sz + n) {
        assert IsNew(m, r, s, k, UPage(ZERO_PAGE, GrowFlags(PTE_W)));
      } else {
        AddedElsewhere(m, r, s, PgUp(x.sz), PgUp(x.sz + n), ZeroPages(PTE_W), s, k);
      }
    }
    NextWithin(x, Grow(n, false));
  }

  lemma {:induction false} Shrank(m: Mem, r: Mem, s: nat, x: Space, n: nat)
    requires Inv(m) && Shows(m, s, x) && n <= x.sz && PgUp(x.sz - n) <= PgUp(x.sz)
    requires Unmapped(m, r, s, PgUp(x.sz - n), PgUp(x.sz) - PgUp(x.sz - n), true)
    ensures Shows(r, s, Next(x, Shrink(n)))
  {
    hide Leaf, Valid, Ppn, Flags, Inv, Unmapped, PagesOf;
    var y := Next(x, Shrink(n));
    forall k: nat | k < USERPAGES ensures ShowsAt(r, s, y, k) {
      assert ShowsAt(m, s, x, k);
      UnmappedAt(m, r, s, PgUp(x.sz - n), PgUp(x.sz) - PgUp(x.sz - n), s, k);
    }
    NextWithin(x, Shrink(n));
  }

  /** Unmapping a range of one space shows there and nowhere else. */
  lemma {:induction false} UnmappedAt(m: Mem, r: Mem, s: nat, n: nat, count: nat, t: nat, k: nat)
    requires Inv(m) && Unmapped(m, r, s, n, count, true)
    ensures if t == s && n <= k < n + count then Leaf(r, t, k) == 0 else SameAt(m, r, t, k)
  {
    hide Valid, Ppn, Flags, Leaf, TablesOk, OneTree, LeavesOk, PoolOk, Pool, PagesOf;
    var e := Leaf(m, t, k);
    if !(t == s && n <= k < n + count) && Valid(e) && Ppn(e) in m.data {
      PagesOfHas(m, s, n, count, Ppn(e));
      forall j: nat | n <= j < n + count && Valid(Leaf(m, s, j)) ensures Ppn(Leaf(m, s, j)) != Ppn(e) {
        assert !MapsTo(m, s, j, t, k);
      }
      SameContents(m, r, s, n, count, Ppn(e));
    }
  }

  lemma {:induction false} NewPageSame(m: Mem, r: Mem, s: nat, n: nat, q: nat, t: nat, k: nat)
    requires NewPage(m, r, s, n, q, ZERO_PAGE, PTE_W + PTE_U + PTE_R) && LeavesOk(m) && OneMapping(r)
    ensures if t == s && k == n then PageAt(r, t, k) == Some(FRESH) else SameAt(m, r, t, k)
  {
    hide Leaf, Valid, Ppn, Flags, MakePte, PageAt, LeavesOk, OneMapping;
    NewPageShows(m, r, s, n, q, ZERO_PAGE, PTE_W + PTE_U + PTE_R, t, k);
  }

  lemma {:induction false} FaultedIn(m: Mem, r: Mem, s: nat, x: Space, k: nat)
    requires Inv(m) && Inv(r) && Shows(m, s, x) && FaultsIn(m, r, s, x.sz, k)
    ensures Shows(r, s, Next(x, Fault(k)))
  {
    hide Leaf, Valid, Ppn, Flags, PageAt, NewPage, TablesOk, OneTree, PoolOk, LeavesOk, OneMapping;
    SizeBound(x);
    if k < PgUp(x.sz) {
      assert ShowsAt(m, s, x, k);
      PageIsThere(m, s, k);
      if k !in x.pages {
        var q: nat :| ZeroedAt(m, r, s, k, q);
        var y := Next(x, Fault(k));
        forall j: nat | j < USERPAGES ensures ShowsAt(r, s, y, j) {
          assert ShowsAt(m, s, x, j);
          NewPageSame(m, r, s, k, q, s, j);
        }
      }
    }
  }

  lemma {:induction false} PageIsThere(m: Mem, s: nat, k: nat)
    ensures PageAt(m, s, k).Some? ==> Leaf(m, s, k) != 0
  {
    hide Leaf;
    NothingValid();
  }

  lemma {:induction false} Overwrote(m: Mem, r: Mem, s: nat, x: Space, k: nat, page: Page)
    requires Inv(m) && Shows(m, s, x) && k in x.pages && k < USERPAGES && Overwrites(m, r, s, k, page)
    ensures Shows(r, s, Next(x, Store(k, page)))
  {
    hide Leaf, Valid, Ppn, Flags, User, Writable, PageAt, TablesOk, OneTree, PoolOk, LeavesOk, OneMapping, Changed;
    assert ShowsAt(m, s, x, k);
    var y := Next(x, Store(k, page));
    if MayWrite(m, s, k) {
      forall j: nat | j < USERPAGES ensures ShowsAt(r, s, y, j) {
        assert ShowsAt(m, s, x, j);
        OverwroteAt(m, s, k, page, s, j);
      }
    }
  }

  lemma {:induction false} OverwroteAt(m: Mem, s: nat, k: nat, page: Page, t: nat, j: nat)
    requires Inv(m) && MayWrite(m, s, k)
    ensures var r := Changed(m, Ppn(Leaf(m, s, k)), page);
            if t == s && j == k then PageAt(r, t, j) == Some(UPage(page, PageAt(m, s, k).value.flags))
              else SameAt(m, r, t, j)
  {
    hide Leaf, Valid, Ppn, Flags, User, Writable, TablesOk, OneTree, PoolOk, LeavesOk;
    ChangedInv(m, Ppn(Leaf(m, s, k)), page);
    ChangedShows(m, Ppn(Leaf(m, s, k)), page, s, k, t, j);
  }

  lemma {:induction false} KernelStored(m: Mem, r: Mem, s: nat, x: Space, k: nat, page: Page)
    requires Inv(m) && Shows(m, s, x) && k < PgUp(x.sz) && exists w :: StoresVia(m, w, r, s, x.sz, k, page)
    ensures Shows(r, s, Next(x, Store(k, page)))
  {
    hide Inv, Leaf, PageAt, FaultsIn, Overwrites, Shows;
    var w :| StoresVia(m, w, r, s, x.sz, k, page);
    FaultedIn(m, w, s, x, k);
    SizeOf(m, s, x);
    Overwrote(w, r, s, Next(x, Fault(k)), k, page);
    StoreFaults(x, k, page);
  }

  lemma {:induction false} SizeOf(m: Mem, s: nat, x: Space)
    requires Shows(m, s, x)
    ensures x.sz <= TRAPFRAME && PgUp(x.sz) <= USERPAGES && Within(x)
  {
  }

  /** A store faults its page in first; on a page it may not write both leave what the fault left. */
  lemma {:induction false} StoreFaults(x: Space, k: nat, page: Page)
    requires k < PgUp(x.sz)
    ensures k in Next(x, Fault(k)).pages
    ensures Next(x, Store(k, page)) == Next(Next(x, Fault(k)), Store(k, page))
  {
  }

  lemma {:induction false} OwnShows(m: Mem, r: Mem, s: nat, x: Space, c: Cmd)
    requires Inv(m) && Inv(r) && Shows(m, s, x) && Does(m, r, s, x.sz, c)
    ensures Shows(r, s, Next(x, c))
  {
    hide Inv, Leaf, PageAt, FaultsIn, StoresVia, Unmapped, Added;
    match c
    case Grow(n, lazily) =>
      if !lazily && x.sz + n <= TRAPFRAME {
        Grew(m, r, s, x, n);
      } else {
        GrewLazily(m, s, x, c);
      }
    case Shrink(n) =>
      if n <= x.sz {
        PgUpMonotone(x.sz - n, x.sz);
        Shrank(m, r, s, x, n);
      } else {
        NothingShrunk(x, n);
      }
    case Fault(k) => FaultedIn(m, r, s, x, k);
    case Store(k, page) =>
      if k < PgUp(x.sz) {
        KernelStored(m, r, s, x, k, page);
      }
    case Put(va, b) => UserStored(m, r, s, x, va, b);
  }

  lemma {:induction false} UserStored(m: Mem, r: Mem, s: nat, x: Space, va: nat, b: Byte)
    requires Inv(m) && Shows(m, s, x) && Does(m, r, s, x.sz, Put(va, b))
    ensures Shows(r, s, Next(x, Put(va, b)))
  {
    hide Inv, FaultsIn, Overwrites, Shows, Leaf, PageAt, Stored;
    var k := va / PGSIZE;
    PutTouches(m, s, x, va);
    if Touchable(m, s, x.sz, va) {
      var w :| PutsVia(m, w, r, s, x.sz, va, b);
      FaultedIn(m, w, s, x, k);
      var y := Next(x, Fault(k));
      SizeOf(m, s, x);
      PageShown(w, s, y, k);
      Overwrote(w, r, s, y, k, y.pages[k].bytes[va % PGSIZE := b]);
      PutFaults(x, va, b);
    }
  }

  /** The tables and the space agree on whether a store can be made. */
  lemma {:induction false} PutTouches(m: Mem, s: nat, x: Space, va: nat)
    requires Shows(m, s, x)
    ensures Touchable(m, s, x.sz, va) <==> va / PGSIZE in x.pages || va < x.sz
    ensures Touchable(m, s, x.sz, va) ==> va / PGSIZE in Next(x, Fault(va / PGSIZE)).pages
  {
    hide Leaf, PageAt;
    var k := va / PGSIZE;
    SizeBound(x);
    PageIsThere(m, s, k);
    assert va < x.sz ==> k < PgUp(x.sz);
    assert k < USERPAGES ==> ShowsAt(m, s, x, k);
  }

  lemma {:induction false} PageShown(m: Mem, s: nat, x: Space, k: nat)
    requires Shows(m, s, x) && k in x.pages && k < USERPAGES
    ensures PageAt(m, s, k) == Some(x.pages[k])
  {
    hide Leaf, PageAt;
    assert ShowsAt(m, s, x, k);
  }

  /** A user store is a fault and then a kernel store of the page with the byte changed. */
  lemma {:induction false} PutFaults(x: Space, va: nat, b: Byte)
    requires va / PGSIZE < PgUp(x.sz) && (va / PGSIZE in x.pages || va < x.sz)
    ensures var k := va / PGSIZE;
            var y := Next(x, Fault(k));
            && k in y.pages
            && Next(x, Put(va, b)) == Next(y, Store(k, y.pages[k].bytes[va % PGSIZE := b]))
  {
  }

  lemma {:induction false} GrewLazily(m: Mem, s: nat, x: Space, c: Cmd)
    requires Shows(m, s, x) && c.Grow? && (c.lazily || x.sz + c.n > TRAPFRAME)
    ensures Shows(m, s, Next(x, c))
  {
    hide Leaf, PageAt;
    NextWithin(x, c);
    forall k: nat | k < USERPAGES ensures ShowsAt(m, s, Next(x, c), k) {
      assert ShowsAt(m, s, x, k);
    }
  }

  lemma {:induction false} NothingShrunk(x: Space, n: nat)
    requires Within(x) && n > x.sz
    ensures Next(x, Shrink(n)) == x
  {
    assert Next(x, Shrink(n)).pages == x.pages;
  }

  // ---- and in the others

  lemma {:induction false} OtherSame(m: Mem, r: Mem, s: nat, sz: nat, c: Cmd, t: nat, k: nat)
    requires Inv(m) && Inv(r) && Does(m, r, s, sz, c) && t != s
    ensures SameAt(m, r, t, k)
  {
    hide Inv, Leaf, PageAt, FaultsIn, Unmapped, Added, Overwrites;
    match c
    case Grow(n, lazily) =>
      if !lazily && sz + n <= TRAPFRAME {
        AddedElsewhere(m, r, s, PgUp(sz), PgUp(sz + n), ZeroPages(PTE_W), t, k);
      }
    case Shrink(n) =>
      if n <= sz && PgUp(sz - n) <= PgUp(sz) {
        UnmappedAt(m, r, s, PgUp(sz - n), PgUp(sz) - PgUp(sz - n), t, k);
      }
    case Fault(j) => FaultOther(m, r, s, sz, j, t, k);
    case Store(j, page) =>
      if j < PgUp(sz) {
        var w :| StoresVia(m, w, r, s, sz, j, page);
        FaultOther(m, w, s, sz, j, t, k);
        OverwriteOther(w, r, s, j, page, t, k);
      }
    case Put(va, b) =>
      if Touchable(m, s, sz, va) {
        var w :| PutsVia(m, w, r, s, sz, va, b);
        FaultOther(m, w, s, sz, va / PGSIZE, t, k);
        OverwriteOther(w, r, s, va / PGSIZE, PageAt(w, s, va / PGSIZE).value.bytes[va % PGSIZE := b], t, k);
      }
  }

  lemma {:induction false} FaultOther(m: Mem, r: Mem, s: nat, sz: nat, n: nat, t: nat, k: nat)
    requires Inv(m) && Inv(r) && FaultsIn(m, r, s, sz, n) && t != s
    ensures SameAt(m, r, t, k)
  {
    hide Leaf, PageAt, NewPage, TablesOk, OneTree, PoolOk, LeavesOk, OneMapping;
    if n < PgUp(sz) && Leaf(m, s, n) == 0 {
      var q: nat :| ZeroedAt(m, r, s, n, q);
      NewPageSame(m, r, s, n, q, t, k);
    }
  }

  lemma {:induction false} OverwriteOther(m: Mem, r: Mem, s: nat, n: nat, page: Page, t: nat, k: nat)
    requires Inv(m) && Overwrites(m, r, s, n, page) && t != s
    ensures SameAt(m, r, t, k)
  {
    hide Inv, Leaf, PageAt, MayWrite, Changed;
    if MayWrite(m, s, n) {
      OverwroteAt(m, s, n, page, t, k);
    }
  }

  // ---- runs

  /** Spaces 0, 1, ... map exactly the pages of xs. */
  ghost predicate AllShow(m: Mem, xs: seq<Space>) {
    forall p: nat :: p < |xs| ==> Shows(m, p, xs[p])
  }

  /** One operation of the kernel, with the promises of the methods that do it. A fork copies into an empty space; a
      failed operation leaves all mappings and data pages. */
  ghost predicate Steps(m: Mem, r: Mem, xs: seq<Space>, op: Op) {
    match op
    case On(p, c) => p < |xs| && Does(m, r, p, xs[p].sz, c)
    case Fork(p) =>
      && p < |xs| && (forall k: nat :: k < USERPAGES ==> Leaf(m, |xs|, k) == 0)
      && Added(m, r, |xs|, 0, PgUp(xs[p].sz), PagesFrom(m, p))
    case Failed => SameLeaves(m, r) && r.data == m.data
  }

  lemma {:induction false} ForkShows(m: Mem, r: Mem, p: nat, c: nat, x: Space)
    requires Inv(r) && Shows(m, p, x) && (forall k: nat :: k < USERPAGES ==> Leaf(m, c, k) == 0)
    requires Added(m, r, c, 0, PgUp(x.sz), PagesFrom(m, p))
    ensures Shows(r, c, x)
  {
    hide Leaf, Valid, Ppn, Flags, Inv;
    SizeBound(x);
    var want := PagesFrom(m, p);
    forall k: nat | k < USERPAGES ensures ShowsAt(r, c, x, k) {
      assert ShowsAt(m, p, x, k) && want(k) == PageAt(m, p, k);
      NothingValid();
      if k < PgUp(x.sz) {
        assert want(k).Some? ==> IsNew(m, r, c, k, want(k).value);
      } else {
        AddedElsewhere(m, r, c, 0, PgUp(x.sz), want, c, k);
      }
    }
  }

  lemma {:induction false} ForkKeeps(m: Mem, r: Mem, p: nat, c: nat, sz: nat, t: nat, x: Space)
    requires Inv(r) && Shows(m, t, x) && t != c && Added(m, r, c, 0, PgUp(sz), PagesFrom(m, p))
    ensures Shows(r, t, x)
  {
    hide Leaf, PageAt, Inv, Added, Shows;
    forall k: nat ensures SameAt(m, r, t, k) {
      AddedElsewhere(m, r, c, 0, PgUp(sz), PagesFrom(m, p), t, k);
    }
    SameShows(m, r, t, x);
  }

  lemma {:induction false} FailedSame(m: Mem, r: Mem, t: nat, x: Space)
    requires Shows(m, t, x) && SameLeaves(m, r) && r.data == m.data
    ensures Shows(r, t, x)
  {
    hide Leaf, Shows;
    forall k: nat ensures SameAt(m, r, t, k) {
    }
    SameShows(m, r, t, x);
  }

  lemma {:induction false} StepOther(m: Mem, r: Mem, s: nat, sz: nat, c: Cmd, t: nat, x: Space)
    requires Inv(m) && Inv(r) && Does(m, r, s, sz, c) && t != s && Shows(m, t, x)
    ensures Shows(r, t, x)
  {
    hide Inv, Does, Shows, SameAt;
    forall k: nat ensures SameAt(m, r, t, k) {
      OtherSame(m, r, s, sz, c, t, k);
    }
    SameShows(m, r, t, x);
  }

  /** Every operation on the tables is the operation on the spaces. */
  lemma {:induction false} StepShows(m: Mem, r: Mem, xs: seq<Space>, op: Op)
    requires Inv(m) && Inv(r) && AllShow(m, xs) && Steps(m, r, xs, op)
    ensures AllShow(r, Apply(xs, op))
  {
    hide Inv, Does, Shows, Added, SameLeaves, Next, Leaf;
    forall t: nat | t < |Apply(xs, op)| ensures Shows(r, t, Apply(xs, op)[t]) {
      match op
      case On(p, c) =>
        if t == p {
          OwnShows(m, r, p, xs[p], c);
        } else {
          StepOther(m, r, p, xs[p].sz, c, t, xs[t]);
        }
      case Fork(p) =>
        if t == |xs| {
          ForkShows(m, r, p, t, xs[p]);
        } else {
          ForkKeeps(m, r, p, |xs|, xs[p].sz, t, xs[t]);
        }
      case Failed => FailedSame(m, r, t, xs[t]);
    }
  }

  /** The memory through a run of operations. */
  ghost predicate History(ms: seq<Mem>, xs: seq<Space>, ops: seq<Op>) {
    && |ms| == |ops| + 1 && (forall i :: 0 <= i < |ms| ==> Inv(ms[i])) && AllShow(ms[0], xs)
    && forall i :: 0 <= i < |ops| ==> Steps(ms[i], ms[i + 1], Run(xs, ops[..i]), ops[i])
  }

  lemma {:induction false} HistoryShows(ms: seq<Mem>, xs: seq<Space>, ops: seq<Op>, n: nat)
    requires History(ms, xs, ops) && n <= |ops|
    ensures AllShow(ms[n], Run(xs, ops[..n]))
  {
    hide Inv, Steps, AllShow, Apply;
    if n > 0 {
      HistoryShows(ms, xs, ops, n - 1);
      StepShows(ms[n - 1], ms[n - 1 + 1], Run(xs, ops[..n - 1]), ops[n - 1]);
      assert ops[..n][..n - 1] == ops[..n - 1] && ops[..n][n - 1] == ops[n - 1];
    }
  }

  lemma {:induction false} ShownWithin(m: Mem, xs: seq<Space>)
    requires AllShow(m, xs)
    ensures AllWithin(xs)
  {
    hide ShowsAt, Within;
  }

  /** After any run on the page tables, however its processes grew, each sees exactly the memory it would see had every
      sbrk allocated and zeroed its pages at once. */
  lemma {:induction false} TablesShowEager(ms: seq<Mem>, xs: seq<Space>, ops: seq<Op>, p: nat, k: nat)
    requires History(ms, xs, ops) && AllFit(xs, ops) && p < |Run(xs, ops)| && k < USERPAGES
    ensures var ys := Run(AllFull(xs), EagerOps(ops));
            && p < |ys|
            && EagerAt(ms[|ops|], p, ys[p].sz, k) == if k in ys[p].pages then Some(ys[p].pages[k]) else None
  {
    hide Inv, Steps, Shows, Run, EagerAt, Full, AllFit;
    HistoryShows(ms, xs, ops, |ops|);
    assert ops[..|ops|] == ops;
    ShownWithin(ms[0], xs);
    LazyIsEager(xs, ops);
    ShowsEager(ms[|ops|], p, Run(xs, ops)[p], k);
    FullSize(Run(xs, ops)[p]);
  }
}
