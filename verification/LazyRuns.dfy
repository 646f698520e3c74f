/** Lazy and eager allocation compared: what growing, shrinking and forking do to the eager view of a space, and whole
    runs of a process. */
module LazyRuns {
  import opened Blocks
  import opened VmSpec
  import opened PageTable
  import opened UserMemory
  import opened LazyMemory

  // ---- sbrk and fork in the eager view

  /** Nothing is mapped between the two sizes. */
  ghost predicate Unused(m: Mem, s: nat, oldsz: nat, newsz: nat) {
    forall k: nat :: PgUp(oldsz) <= k < PgUp(newsz) ==> Leaf(m, s, k) == 0
  }

  /** A lazy sbrk only changes the size: below the old size the eager view is the same, above it is zero. */
  lemma {:induction false} LazyGrowth(m: Mem, s: nat, oldsz: nat, newsz: nat, k: nat)
    requires oldsz <= newsz && PgUp(newsz) <= MAXPAGES && Unused(m, s, oldsz, newsz)
    ensures EagerAt(m, s, newsz, k) ==
            if PgUp(oldsz) <= k < PgUp(newsz) then Some(UPage(ZERO_PAGE, LAZY_FLAGS)) else EagerAt(m, s, oldsz, k)
  {
    NothingValid();
    PgUpMonotone(oldsz, newsz);
  }

  /** An eager sbrk, by uvmalloc with write permission, gives the same eager view as a lazy one. */
  lemma {:induction false} EagerGrowth(m: Mem, r: Mem, s: nat, oldsz: nat, newsz: nat, k: nat)
    requires oldsz <= newsz && PgUp(newsz) <= MAXPAGES && Unused(m, s, oldsz, newsz)
    requires Inv(r) && Added(m, r, s, PgUp(oldsz), PgUp(newsz), ZeroPages(PTE_W))
    ensures EagerAt(r, s, newsz, k) == EagerAt(m, s, newsz, k)
  {
    hide Valid, Ppn, Flags, Leaf, Inv;
    NothingValid();
    PgUpMonotone(oldsz, newsz);
    if PgUp(oldsz) <= k < PgUp(newsz) {
      assert IsNew(m, r, s, k, UPage(ZERO_PAGE, GrowFlags(PTE_W)));
    } else {
      AddedElsewhere(m, r, s, PgUp(oldsz), PgUp(newsz), ZeroPages(PTE_W), s, k);
    }
  }

  /** Adding pages to one space does not show at other places. */
  lemma {:induction false} AddedElsewhere(m: Mem, r: Mem, s: nat, lo: nat, hi: nat, want: nat -> Option<UPage>, t: nat,
                                          k: nat)
    requires Inv(r) && Added(m, r, s, lo, hi, want) && !(t == s && lo <= k < hi)
    ensures Leaf(r, t, k) == Leaf(m, t, k) && PageAt(r, t, k) == PageAt(m, t, k)
  {
    hide Valid, Ppn, Flags, Leaf, TablesOk, OneTree, LeavesOk, PoolOk;
    var e := Leaf(m, t, k);
    forall j: nat | lo <= j < hi && Valid(Leaf(r, s, j)) && Valid(e) && Ppn(e) in r.data
      ensures Ppn(Leaf(r, s, j)) != Ppn(e)
    {
      assert !MapsTo(r, t, k, s, j);
    }
  }

  /** Shrinking keeps the eager view below the new size and clears it above. */
  lemma {:induction false} Shrinking(m: Mem, r: Mem, s: nat, oldsz: nat, newsz: nat, k: nat)
    requires newsz <= oldsz && PgUp(oldsz) <= MAXPAGES && Inv(m)
    requires Unmapped(m, r, s, PgUp(newsz), PgUp(oldsz) - PgUp(newsz), true)
    requires forall j: nat :: PgUp(newsz) <= j < PgUp(oldsz) && Valid(Leaf(m, s, j)) ==> Ppn(Leaf(m, s, j)) in m.data
    ensures EagerAt(r, s, newsz, k) == if PgUp(newsz) <= k < PgUp(oldsz) then None else EagerAt(m, s, oldsz, k)
  {
    hide Valid, Ppn, Flags, Leaf, TablesOk, OneTree, LeavesOk, PoolOk, Pool, PagesOf;
    NothingValid();
    PgUpMonotone(newsz, oldsz);
    var e := Leaf(m, s, k);
    if !(PgUp(newsz) <= k < PgUp(oldsz)) && Valid(e) && Ppn(e) in m.data {
      PagesOfHas(m, s, PgUp(newsz), PgUp(oldsz) - PgUp(newsz), Ppn(e));
      forall j: nat | PgUp(newsz) <= j < PgUp(oldsz) && Valid(Leaf(m, s, j)) ensures Ppn(Leaf(m, s, j)) != Ppn(e) {
        assert !MapsTo(m, s, j, s, k);
      }
      SameContents(m, r, s, PgUp(newsz), PgUp(oldsz) - PgUp(newsz), Ppn(e));
    }
  }

  lemma {:induction false} SameContents(m: Mem, r: Mem, s: nat, n: nat, count: nat, q: nat)
    requires Unmapped(m, r, s, n, count, true) && q in m.data && q !in PagesOf(m, s, n, count)
    ensures q in r.data && r.data[q] == m.data[q]
  {
  }

  /** fork: below sz the child sees what the parent sees, and the parent what it saw before. */
  lemma {:induction false} Forked(m: Mem, r: Mem, s: nat, c: nat, sz: nat, k: nat)
    requires Inv(r) && s != c && k < PgUp(sz) <= MAXPAGES && Added(m, r, c, 0, PgUp(sz), PagesFrom(m, s))
    requires Valid(Leaf(m, s, k)) ==> Ppn(Leaf(m, s, k)) in m.data
    ensures EagerAt(r, c, sz, k) == EagerAt(m, s, sz, k) == EagerAt(r, s, sz, k)
  {
    hide Valid, Ppn, Flags, Leaf, Inv;
    NothingValid();
    AddedElsewhere(m, r, c, 0, PgUp(sz), PagesFrom(m, s), s, k);
    var want := PagesFrom(m, s);
    assert want(k) == PageAt(m, s, k);
    assert want(k).Some? ==> IsNew(m, r, c, k, want(k).value);
  }

  // ---- runs of processes

  /** Where the trapframe and the trampoline are mapped: user memory ends below. */
  const USERPAGES := MAXPAGES - 2
  const TRAPFRAME := USERPAGES * PGSIZE

  /** A process's size and the pages that are there. */
  datatype Space = Space(sz: nat, pages: map<nat, UPage>)

  datatype Cmd =
    | Grow(n: nat, lazily: bool)
    | Shrink(n: nat)
    | Fault(k: nat)
    | Store(k: nat, page: Page)     // write to page k by the kernel, faulting it in if need be
    | Put(va: nat, b: Byte)         // store by the user, with the trap if the page is not there

  const FRESH := UPage(ZERO_PAGE, LAZY_FLAGS)

  /** The space with every missing page below its size filled in. */
  function Full(x: Space): (r: Space) {
    x.(pages := map k: nat | k < PgUp(x.sz) :: if k in x.pages then x.pages[k] else FRESH)
  }

  function Next(x: Space, c: Cmd): (r: Space) {
    match c
    case Grow(n, lazily) =>
      if x.sz + n > TRAPFRAME then x
      else if lazily then x.(sz := x.sz + n)
      else Space(x.sz + n, map k: nat | k < PgUp(x.sz + n) && (k in x.pages || PgUp(x.sz) <= k) :: PageOf(x, k))
    case Shrink(n) =>
      var sz := if n <= x.sz then x.sz - n else x.sz;
      Space(sz, map k: nat | k in x.pages && k < PgUp(sz) :: x.pages[k])
    case Fault(k) => if k < PgUp(x.sz) && k !in x.pages then x.(pages := x.pages[k := FRESH]) else x
    case Store(k, page) => if k < PgUp(x.sz) then Stored(x, k, page) else x
    case Put(va, b) =>
      if va / PGSIZE in x.pages || va < x.sz
      then Stored(x, va / PGSIZE, PageOf(x, va / PGSIZE).bytes[va % PGSIZE := b])
      else x
  }

  function PageOf(x: Space, k: nat): (u: UPage) {
    if k in x.pages then x.pages[k] else FRESH
  }

  function Stored(x: Space, k: nat, page: Page): (r: Space) {
    var u := PageOf(x, k);
    if Writable(u.flags) && User(u.flags) then x.(pages := x.pages[k := UPage(page, u.flags)]) else x
  }

  /** A user store does not go to a missing page between the size and the end of that page. */
  predicate Fits(x: Space, c: Cmd) {
    c.Put? ==> c.va / PGSIZE in x.pages || c.va < x.sz || c.va / PGSIZE >= PgUp(x.sz)
  }

  function Eagerly(c: Cmd): (r: Cmd) {
    if c.Grow? then Grow(c.n, false) else c
  }

  ghost predicate Within(x: Space) {
    forall k :: k in x.pages ==> k < PgUp(x.sz)
  }

  lemma {:induction false} NextWithin(x: Space, c: Cmd)
    requires Within(x)
    ensures Within(Next(x, c))
  {
    if c.Grow? {
      PgUpMonotone(x.sz, x.sz + c.n);
    }
  }

  lemma {:induction false} NextPage(x: Space, c: Cmd, k: nat)
    requires Within(x) && Fits(x, c) && k < PgUp(Next(x, c).sz)
    ensures Next(x, c).sz == Next(Full(x), Eagerly(c)).sz && k in Next(Full(x), Eagerly(c)).pages
    ensures Full(Next(x, c)).pages[k] == Next(Full(x), Eagerly(c)).pages[k]
  {
    hide PgUp;
    match c
    case Grow(_, _) => GrowPage(x, c, k);
    case Shrink(_) => ShrinkPage(x, c, k);
    case Fault(_) =>
    case Store(_, _) =>
    case Put(_, _) => PutPage(x, c, k);
  }

  lemma {:induction false} GrowPage(x: Space, c: Cmd, k: nat)
    requires c.Grow? && Within(x) && k < PgUp(Next(x, c).sz)
    ensures Next(x, c).sz == Next(Full(x), Eagerly(c)).sz && k in Next(Full(x), Eagerly(c)).pages
    ensures Full(Next(x, c)).pages[k] == Next(Full(x), Eagerly(c)).pages[k]
  {
    PgUpMonotone(x.sz, x.sz + c.n);
    hide PgUp;
  }

  lemma {:induction false} ShrinkPage(x: Space, c: Cmd, k: nat)
    requires c.Shrink? && Within(x) && k < PgUp(Next(x, c).sz)
    ensures Next(x, c).sz == Next(Full(x), c).sz && k in Next(Full(x), c).pages
    ensures Full(Next(x, c)).pages[k] == Next(Full(x), c).pages[k]
  {
    if c.n <= x.sz {
      PgUpMonotone(x.sz - c.n, x.sz);
    }
    hide PgUp;
  }

  lemma {:induction false} PutPage(x: Space, c: Cmd, k: nat)
    requires c.Put? && Within(x) && Fits(x, c) && k < PgUp(Next(x, c).sz)
    ensures Next(x, c).sz == Next(Full(x), c).sz && k in Next(Full(x), c).pages
    ensures Full(Next(x, c)).pages[k] == Next(Full(x), c).pages[k]
  {
    assert c.va < x.sz ==> c.va / PGSIZE < PgUp(x.sz);
    hide PgUp;
  }

  /** A command on the lazy space does to its eager view what its eager form does. */
  lemma {:induction false} NextFull(x: Space, c: Cmd)
    requires Within(x) && Fits(x, c)
    ensures Full(Next(x, c)) == Next(Full(x), Eagerly(c))
  {
    var a, b := Full(Next(x, c)), Next(Full(x), Eagerly(c));
    hide Full;
    FullSize(Next(x, c));
    FullSize(x);
    NextWithin(Full(x), Eagerly(c));
    forall k: nat ensures k in a.pages <==> k in b.pages {
      if k < PgUp(Next(x, c).sz) {
        NextPage(x, c, k);
      }
    }
    forall k: nat | k in a.pages ensures a.pages[k] == b.pages[k] {
      NextPage(x, c, k);
    }
    assert a.pages == b.pages;
  }

  /** A user store does to the lazy space what it does to the eager one, whatever byte it stores, if and only if it
      fits. */
  lemma {:induction false} PutIsEagerIff(x: Space, va: nat)
    requires Within(x)
    ensures (forall b :: Full(Next(x, Put(va, b))) == Next(Full(x), Put(va, b))) <==> Fits(x, Put(va, 0))
  {
    if Fits(x, Put(va, 0)) {
      forall b ensures Full(Next(x, Put(va, b))) == Next(Full(x), Put(va, b)) {
        NextFull(x, Put(va, b));
      }
    } else {
      PutRefused(x, va, 1);
    }
  }

  /** The store that shows it: the eager space has the byte, the lazy one is as before. */
  lemma {:induction false} PutRefused(x: Space, va: nat, b: Byte)
    requires Within(x) && !Fits(x, Put(va, b)) && b != 0
    ensures Next(x, Put(va, b)) == x && Full(x) != Next(Full(x), Put(va, b))
  {
    var k := va / PGSIZE;
    assert Full(x).pages[k] == FRESH && User(LAZY_FLAGS) && Writable(LAZY_FLAGS);
    assert Next(Full(x), Put(va, b)).pages[k].bytes[va % PGSIZE] == b;
    assert ZERO_PAGE[va % PGSIZE] == 0;
  }

  lemma {:induction false} FullSize(x: Space)
    ensures Full(x).sz == x.sz && Within(Full(x)) && forall k: nat :: k in Full(x).pages <==> k < PgUp(x.sz)
  {
  }

  /** A command of process p, a fork of it, or an operation that failed for want of a page. */
  datatype Op = On(p: nat, c: Cmd) | Fork(p: nat) | Failed

  /** What an operation does to the spaces of all processes; fork copies the pages that are there. */
  function Apply(xs: seq<Space>, op: Op): (r: seq<Space>) {
    match op
    case On(p, c) => if p < |xs| then xs[p := Next(xs[p], c)] else xs
    case Fork(p) => if p < |xs| then xs + [xs[p]] else xs
    case Failed => xs
  }

  function AllFull(xs: seq<Space>): (r: seq<Space>) {
    seq(|xs|, p requires 0 <= p < |xs| => Full(xs[p]))
  }

  function EagerOp(op: Op): (r: Op) {
    if op.On? then On(op.p, Eagerly(op.c)) else op
  }

  function EagerOps(ops: seq<Op>): (r: seq<Op>) {
    seq(|ops|, i requires 0 <= i < |ops| => EagerOp(ops[i]))
  }

  function Run(xs: seq<Space>, ops: seq<Op>): (r: seq<Space>) {
    if ops == [] then xs else Apply(Run(xs, ops[..|ops| - 1]), ops[|ops| - 1])
  }

  ghost predicate AllWithin(xs: seq<Space>) {
    forall p :: 0 <= p < |xs| ==> Within(xs[p])
  }

  /** User stores of the run fit. */
  ghost predicate OpFits(xs: seq<Space>, op: Op) {
    op.On? && op.p < |xs| ==> Fits(xs[op.p], op.c)
  }

  ghost predicate AllFit(xs: seq<Space>, ops: seq<Op>) {
    forall i :: 0 <= i < |ops| ==> OpFits(Run(xs, ops[..i]), ops[i])
  }

  lemma {:induction false} ApplyFull(xs: seq<Space>, op: Op)
    requires AllWithin(xs) && OpFits(xs, op)
    ensures AllWithin(Apply(xs, op)) && AllFull(Apply(xs, op)) == Apply(AllFull(xs), EagerOp(op))
  {
    hide Full, Next, Within, Fits;
    if op.On? && op.p < |xs| {
      NextWithin(xs[op.p], op.c);
      NextFull(xs[op.p], op.c);
    }
  }

  lemma {:induction false} FitBefore(xs: seq<Space>, ops: seq<Op>)
    requires AllFit(xs, ops) && ops != []
    ensures AllFit(xs, ops[..|ops| - 1]) && OpFits(Run(xs, ops[..|ops| - 1]), ops[|ops| - 1])
  {
    hide Run, OpFits;
    var n := |ops| - 1;
    forall i | 0 <= i < n ensures OpFits(Run(xs, ops[..n][..i]), ops[..n][i]) {
      assert ops[..n][..i] == ops[..i];
    }
  }

  /** Over any run of any number of processes that grow, shrink, fault, write and fork, growing lazily and faulting
      pages in shows every process the same memory as growing eagerly. */
  lemma {:induction false} LazyIsEager(xs: seq<Space>, ops: seq<Op>)
    requires AllWithin(xs) && AllFit(xs, ops)
    ensures AllWithin(Run(xs, ops)) && AllFull(Run(xs, ops)) == Run(AllFull(xs), EagerOps(ops))
    decreases |ops|
  {
    hide Full, Next, Within, Apply, AllFull, AllFit, OpFits;
    if ops != [] {
      var n := |ops| - 1;
      FitBefore(xs, ops);
      LazyIsEager(xs, ops[..n]);
      assert EagerOps(ops)[..n] == EagerOps(ops[..n]);
      ApplyFull(Run(xs, ops[..n]), ops[n]);
    }
  }

  /** Operations on other processes, and more forks, leave a process's space alone. */
  lemma {:induction false} LeftAlone(xs: seq<Space>, ops: seq<Op>, q: nat)
    requires q < |xs| && forall k :: 0 <= k < |ops| && ops[k].On? ==> ops[k].p != q
    ensures q < |Run(xs, ops)| && Run(xs, ops)[q] == xs[q] && |Run(xs, ops)| >= |xs|
  {
    if ops != [] {
      LeftAlone(xs, ops[..|ops| - 1], q);
    }
  }

  lemma {:induction false} RunSplit(xs: seq<Space>, ops: seq<Op>, more: seq<Op>)
    ensures Run(xs, ops + more) == Run(Run(xs, ops), more)
  {
    if more == [] {
      assert ops + more == ops;
    } else {
      var n := |more| - 1;
      assert (ops + more)[..|ops| + n] == ops + more[..n];
      RunSplit(xs, ops, more[..n]);
    }
  }

  /** fork adds one process. Its memory is a copy of what the parent had at that moment, whatever the parent and others
      do afterwards; and the parent's is not touched by what the child does. */
  lemma {:induction false} ForkCopies(xs: seq<Space>, ops: seq<Op>, p: nat, more: seq<Op>)
    requires p < |Run(xs, ops)|
    ensures var (was, q) := (Run(xs, ops), |Run(xs, ops)|);
            var r := Run(xs, ops + [Fork(p)] + more);
            && q < |r|
            && ((forall k :: 0 <= k < |more| && more[k].On? ==> more[k].p != q) ==> r[q] == was[p])
            && ((forall k :: 0 <= k < |more| && more[k].On? ==> more[k].p != p) ==> r[p] == was[p])
  {
    var was, q := Run(xs, ops), |Run(xs, ops)|;
    var forked := was + [was[p]];
    assert (ops + [Fork(p)])[..|ops|] == ops;
    assert Run(xs, ops + [Fork(p)]) == forked;
    RunSplit(xs, ops + [Fork(p)], more);
    NeverFewer(forked, more);
    if forall k :: 0 <= k < |more| && more[k].On? ==> more[k].p != q {
      LeftAlone(forked, more, q);
    }
    if forall k :: 0 <= k < |more| && more[k].On? ==> more[k].p != p {
      LeftAlone(forked, more, p);
    }
  }

  lemma {:induction false} NeverFewer(xs: seq<Space>, ops: seq<Op>)
    ensures |Run(xs, ops)| >= |xs|
  {
    if ops != [] {
      NeverFewer(xs, ops[..|ops| - 1]);
    }
  }
}
