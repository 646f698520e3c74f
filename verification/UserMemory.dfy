/** User memory on top of the page tables: what growing, copying and freeing a space do to the pages it holds. */
module UserMemory {
  import opened Blocks
  import opened VmSpec
  import opened PageTable

  /** A page of a space as its process sees it. */
  datatype UPage = UPage(bytes: Page, flags: nat)

  const ZERO_PAGE: Page := Zeros(PGSIZE)

  /** The data page at page k of space s, if there is one. */
  ghost function PageAt(m: Mem, s: nat, k: nat): (r: Option<UPage>) {
    var e := Leaf(m, s, k);
    if Valid(e) && Ppn(e) in m.data then Some(UPage(m.data[Ppn(e)], Flags(e))) else None
  }

  /** Page k of space s in r is a page of its own, new since m, with these contents. */
  ghost predicate IsNew(m: Mem, r: Mem, s: nat, k: nat, u: UPage) {
    var e := Leaf(r, s, k);
    Valid(e) && Flags(e) == u.flags && Ppn(e) !in m.data && Ppn(e) in r.data && r.data[Ppn(e)] == u.bytes
  }

  ghost predicate MappedIn(m: Mem, s: nat, lo: nat, hi: nat, q: nat) {
    exists k: nat :: lo <= k < hi && Valid(Leaf(m, s, k)) && Ppn(Leaf(m, s, k)) == q
  }

  /** From m to r, space s got new pages between lo and hi as want says; nothing else changed. */
  ghost predicate Added(m: Mem, r: Mem, s: nat, lo: nat, hi: nat, want: nat -> Option<UPage>) {
    && (forall t, k: nat :: !(t == s && lo <= k < hi) ==> Leaf(r, t, k) == Leaf(m, t, k))
    && (forall k: nat :: lo <= k < hi ==>
          if want(k).Some? then IsNew(m, r, s, k, want(k).value) else Leaf(r, s, k) == 0)
    && (forall q :: q in m.data ==> q in r.data && r.data[q] == m.data[q])
    && (forall q :: q in r.data ==> q in m.data || MappedIn(r, s, lo, hi, q))
  }

  lemma {:induction false} AddedNone(m: Mem, s: nat, lo: nat, want: nat -> Option<UPage>)
    ensures Added(m, m, s, lo, lo, want)
  {
  }

  lemma {:induction false} AddedSkip(m: Mem, r: Mem, s: nat, lo: nat, hi: nat, want: nat -> Option<UPage>)
    requires Added(m, r, s, lo, hi, want) && lo <= hi && want(hi) == None && Leaf(m, s, hi) == 0
    ensures Added(m, r, s, lo, hi + 1, want)
  {
    hide Leaf, Valid, Ppn, Flags;
    forall q | q in r.data && q !in m.data ensures MappedIn(r, s, lo, hi + 1, q) {
      assert MappedIn(r, s, lo, hi, q);
    }
  }

  /** One page more, taken from the free list and mapped. */
  ghost predicate NewPage(m: Mem, r: Mem, s: nat, n: nat, q: nat, page: Page, perm: nat)
    requires perm < 1024
  {
    LeafSet(m, r, s, n, MakePte(q, perm)) && q !in m.data && r.data == m.data[q := page]
  }

  lemma {:induction false} NewPageIs(m: Mem, r: Mem, s: nat, n: nat, q: nat, page: Page, perm: nat)
    requires perm < 1024 && NewPage(m, r, s, n, q, page, perm)
    ensures Leaf(r, s, n) == MakePte(q, perm) && Valid(Leaf(r, s, n)) && Ppn(Leaf(r, s, n)) == q
    ensures Flags(Leaf(r, s, n)) == if perm % 2 == 1 then perm else perm + 1
  {
    hide Leaf, Valid, Ppn, MakePte, Flags;
    PteRoundTrip(q, perm);
  }

  lemma {:induction false} AddedMore(m: Mem, w: Mem, r: Mem, s: nat, lo: nat, hi: nat, want: nat -> Option<UPage>,
                                     q: nat, page: Page, perm: nat)
    requires perm < 1024 && Added(m, w, s, lo, hi, want) && lo <= hi && NewPage(w, r, s, hi, q, page, perm)
    requires want(hi) == Some(UPage(page, if perm % 2 == 1 then perm else perm + 1))
    ensures Added(m, r, s, lo, hi + 1, want)
  {
    hide Leaf, Valid, Ppn, MakePte, Flags;
    NewPageIs(w, r, s, hi, q, page, perm);
    forall k: nat | lo <= k < hi + 1
      ensures if want(k).Some? then IsNew(m, r, s, k, want(k).value) else Leaf(r, s, k) == 0
    {
      if k < hi {
        assert Leaf(r, s, k) == Leaf(w, s, k);
        assert want(k).Some? ==> IsNew(m, w, s, k, want(k).value);
      }
    }
    forall x | x in r.data && x !in m.data ensures MappedIn(r, s, lo, hi + 1, x) {
      if x != q {
        assert MappedIn(w, s, lo, hi, x);
        var k: nat :| lo <= k < hi && Valid(Leaf(w, s, k)) && Ppn(Leaf(w, s, k)) == x;
        assert Leaf(r, s, k) == Leaf(w, s, k);
      }
    }
  }

  /** Unmapping and freeing what was added brings the old mappings and pages back. */
  lemma {:induction false} AddedUndone(m: Mem, w: Mem, r: Mem, s: nat, lo: nat, hi: nat, want: nat -> Option<UPage>)
    requires Added(m, w, s, lo, hi, want) && lo <= hi && Unmapped(w, r, s, lo, hi - lo, true)
    requires forall k: nat :: lo <= k < hi ==> Leaf(m, s, k) == 0
    ensures SameLeaves(m, r) && r.data == m.data
  {
    hide Leaf, Valid, Ppn, Flags, Inv, Pool, PagesOf;
    forall q ensures q in r.data <==> q in m.data {
      PagesOfHas(w, s, lo, hi - lo, q);
      if q in m.data {
        forall k: nat | lo <= k < hi && Valid(Leaf(w, s, k)) ensures Ppn(Leaf(w, s, k)) != q {
          NothingValid();
          assert want(k).Some? ==> IsNew(m, w, s, k, want(k).value);
        }
      } else if q in w.data {
        assert MappedIn(w, s, lo, hi, q);
      }
    }
    assert r.data == m.data;
  }

  /** What was added can be freed again. */
  lemma {:induction false} AddedInData(m: Mem, r: Mem, s: nat, lo: nat, hi: nat, want: nat -> Option<UPage>, k: nat)
    requires Added(m, r, s, lo, hi, want) && lo <= k < hi && Valid(Leaf(r, s, k))
    ensures Ppn(Leaf(r, s, k)) in r.data
  {
    hide Leaf, Ppn, Flags;
    NothingValid();
    assert want(k).Some? ==> IsNew(m, r, s, k, want(k).value);
  }

  // ---- getting one page

  lemma {:induction false} GrabbedMissing(m: Mem, page: Page, s: nat, n: nat)
    requires m.free != []
    ensures Missing(Grabbed(m, page), s, 2, n) == Missing(m, s, 2, n)
  {
    SameTablesAt(m, Grabbed(m, page), PosFor(s, 0, n));
    SameTablesAt(m, Grabbed(m, page), PosFor(s, 1, n));
  }

  lemma {:induction false} GrabbedMappable(m: Mem, page: Page)
    requires Inv(m) && m.free != []
    ensures Mappable(Grabbed(m, page), m.free[0]) && m.free[0] !in m.data
  {
    hide TablesOk, OneTree, OneMapping, LeavesOk, NotMapped;
    GrabbedInv(m, page);
    assert m.free[0] in m.free;
  }

  lemma {:induction false} MappedOne(m: Mem, r: Mem, s: nat, n: nat, p: nat, perm: nat)
    requires perm < 1024
    ensures MappedTo(m, r, s, n, 1, p, perm) ==> LeafSet(m, r, s, n, MakePte(p, perm))
    ensures MappedTo(m, r, s, n, 0, p, perm) ==> SameLeaves(m, r)
  {
    hide Leaf, MakePte;
  }

  lemma {:induction false} NotMappedStays(m: Mem, r: Mem, p: nat)
    requires NotMapped(m, p) && SameLeaves(m, r)
    ensures NotMapped(r, p)
  {
    hide Leaf, Valid, Ppn;
  }

  lemma {:induction false} SameLeavesTrans(m: Mem, w: Mem, r: Mem)
    requires SameLeaves(m, w) && SameLeaves(w, r)
    ensures SameLeaves(m, r)
  {
    hide Leaf;
  }

  lemma {:induction false} LeafSetFrom(m: Mem, w: Mem, r: Mem, s: nat, n: nat, pte: nat)
    requires SameLeaves(m, w) && LeafSet(w, r, s, n, pte)
    ensures LeafSet(m, r, s, n, pte)
  {
    hide Leaf;
  }

  /** kalloc, fill and mappages of one page, with kfree when the mapping fails: what uvmalloc, uvmcopy and vmfault do
      for each page. It works exactly when there are enough free pages for the page and the tables it needs. */
  method MapNew(vm: Vm, root: nat, n: nat, page: Page, perm: nat, ghost s: nat) returns (q: Option<nat>)
    requires Inv(vm.View()) && s in vm.roots && vm.roots[s] == root && n < MAXPAGES && perm < 1024
             && Leaf(vm.View(), s, n) == 0
    modifies vm`free, vm`tables, vm`data
    ensures Steady(old(vm.View()), vm.View())
    ensures q.Some? <==> 1 + Missing(old(vm.View()), s, 2, n) <= |old(vm.free)|
    ensures 3 <= |old(vm.free)| ==> q.Some?
    ensures q.Some? ==> |old(vm.free)| <= |vm.free| + 3
    ensures q == None ==> |vm.free| <= 1
    ensures if q.Some? then NewPage(old(vm.View()), vm.View(), s, n, q.value, page, perm)
            else SameLeaves(old(vm.View()), vm.View()) && vm.data == old(vm.data)
  {
    hide Inv, Leaf, Pool, MakePte, NotMapped, Missing, Mappable, MappedTo, LeafSet, SameLeaves;
    ghost var m := vm.View();
    MissingFew(m, s, n);
    q := vm.Kalloc();
    if q == None {
      SameLeavesSelf(m);
      return;
    }
    GrabbedInv(m, page);
    GrabbedPoolSet(m, page);
    GrabbedMissing(m, page, s, n);
    GrabbedMappable(m, page);
    vm.data := vm.data[q.value := page];
    ghost var w := vm.View();
    assert w == Grabbed(m, page);
    assert Leaf(w, s, n) == Leaf(m, s, n) by {
      SameLeafAt(m, w, s, n);
    }
    var ok, done := vm.Mappages(root, n, 1, q.value, perm, s);
    MappedOne(w, vm.View(), s, n, q.value, perm);
    if ok {
      LeafSetFrom(m, w, vm.View(), s, n, MakePte(q.value, perm));
    } else {
      ghost var x := vm.View();
      NotMappedStays(w, x, q.value);
      ReleasedInv(x, q.value);
      ReleasedPoolSet(x, q.value);
      SameLeavesTrans(m, w, x);
      SameLeavesTrans(m, x, Released(x, q.value));
      vm.Kfree(q.value);
      assert vm.data == m.data;
      q := None;
    }
  }

  lemma {:induction false} SameLeafAt(m: Mem, r: Mem, s: nat, n: nat)
    requires SameLeaves(m, r)
    ensures Leaf(r, s, n) == Leaf(m, s, n)
  {
    hide Leaf;
  }

  lemma {:induction false} SameLeavesSelf(m: Mem)
    ensures SameLeaves(m, m)
  {
  }

  // ---- growing and shrinking

  /** PGROUNDUP(sz) / PGSIZE. */
  function PgUp(sz: nat): (n: nat) {
    (sz + PGSIZE - 1) / PGSIZE
  }

  lemma {:induction false} PgUpMonotone(a: nat, b: nat)
    requires a <= b
    ensures PgUp(a) <= PgUp(b)
  {
  }

  /** uvmdealloc: the pages from newsz up to oldsz are unmapped and free again. */
  method Uvmdealloc(vm: Vm, root: nat, oldsz: nat, newsz: nat, ghost s: nat) returns (r: nat)
    requires Inv(vm.View()) && s in vm.roots && vm.roots[s] == root && PgUp(oldsz) <= MAXPAGES
    requires forall k: nat :: PgUp(newsz) <= k < PgUp(oldsz) && Valid(Leaf(vm.View(), s, k)) ==>
               Ppn(Leaf(vm.View(), s, k)) in vm.data
    modifies vm`free, vm`tables, vm`data
    ensures r == if newsz < oldsz then newsz else oldsz
    ensures Unmapped(old(vm.View()), vm.View(), s, PgUp(newsz),
                     if newsz < oldsz then PgUp(oldsz) - PgUp(newsz) else 0, true)
  {
    hide Inv, Leaf, Pool, Unmapped, Valid, Ppn;
    UnmappedNone(vm.View(), s, PgUp(newsz), true);
    if newsz >= oldsz {
      return oldsz;
    }
    PgUpMonotone(newsz, oldsz);
    if PgUp(newsz) < PgUp(oldsz) {
      vm.Uvmunmap(root, PgUp(newsz), PgUp(oldsz) - PgUp(newsz), true, s);
    }
    r := newsz;
  }

  /** The flags of a page that uvmalloc maps. */
  function GrowFlags(xperm: nat): (f: nat)
    requires xperm in {0, PTE_W, PTE_X, PTE_W + PTE_X}
  {
    PTE_R + PTE_U + xperm + PTE_V
  }

  ghost function ZeroPages(xperm: nat): (want: nat -> Option<UPage>)
    requires xperm in {0, PTE_W, PTE_X, PTE_W + PTE_X}
  {
    (k: nat) => Some(UPage(ZERO_PAGE, GrowFlags(xperm)))
  }

  /** uvmalloc: zeroed pages from oldsz up to newsz, or, when a page cannot be had, all mappings and data pages as
      they were. */
  method Uvmalloc(vm: Vm, root: nat, oldsz: nat, newsz: nat, xperm: nat, ghost s: nat) returns (r: nat, ghost ok: bool)
    requires Inv(vm.View()) && s in vm.roots && vm.roots[s] == root && PgUp(newsz) <= MAXPAGES
    requires xperm in {0, PTE_W, PTE_X, PTE_W + PTE_X}
    requires forall k: nat :: PgUp(oldsz) <= k < PgUp(newsz) ==> Leaf(vm.View(), s, k) == 0
    modifies vm`free, vm`tables, vm`data
    ensures Steady(old(vm.View()), vm.View())
    ensures newsz < oldsz ==> ok && r == oldsz && vm.View() == old(vm.View())
    ensures newsz >= oldsz && ok ==>
              r == newsz && Added(old(vm.View()), vm.View(), s, PgUp(oldsz), PgUp(newsz), ZeroPages(xperm))
    ensures 3 * (PgUp(newsz) - PgUp(oldsz)) <= |old(vm.free)| ==> ok
    ensures !ok ==> r == 0 && SameLeaves(old(vm.View()), vm.View()) && vm.data == old(vm.data)
    ensures !ok ==> |vm.free| <= PgUp(newsz) - PgUp(oldsz)
  {
    hide Inv, Leaf, Pool, Valid, Ppn, MakePte, Missing, SameLeaves, Unmapped, IsNew, MappedIn, LeafSet;
    if newsz < oldsz {
      return oldsz, true;
    }
    PgUpMonotone(oldsz, newsz);
    ghost var m := vm.View();
    ghost var want := ZeroPages(xperm);
    AddedNone(m, s, PgUp(oldsz), want);
    var a := PgUp(oldsz);
    while a * PGSIZE < newsz
      invariant PgUp(oldsz) <= a <= PgUp(newsz) && Steady(m, vm.View()) && Added(m, vm.View(), s, PgUp(oldsz), a, want)
      invariant |m.free| <= |vm.free| + 3 * (a - PgUp(oldsz))
      decreases PgUp(newsz) - a
    {
      ghost var w := vm.View();
      var q := MapNew(vm, root, a, ZERO_PAGE, PTE_R + PTE_U + xperm, s);
      if q == None {
        GiveBack(vm, root, PgUp(oldsz), a, want, m, w, s);
        return 0, false;
      }
      AddedMore(m, w, vm.View(), s, PgUp(oldsz), a, want, q.value, ZERO_PAGE, PTE_R + PTE_U + xperm);
      a := a + 1;
    }
    return newsz, true;
  }

  /** Undoing a partial growth. */
  method GiveBack(vm: Vm, root: nat, lo: nat, hi: nat, ghost want: nat -> Option<UPage>, ghost m: Mem, ghost w: Mem,
                  ghost s: nat)
    requires Inv(vm.View()) && s in vm.roots && vm.roots[s] == root && lo <= hi <= MAXPAGES
    requires Added(m, w, s, lo, hi, want) && Steady(m, vm.View()) && SameLeaves(w, vm.View()) && vm.data == w.data
    requires forall k: nat :: lo <= k < hi ==> Leaf(m, s, k) == 0
    modifies vm`free, vm`tables, vm`data
    ensures Steady(m, vm.View()) && SameLeaves(m, vm.View()) && vm.data == m.data
    ensures |vm.free| <= |old(vm.free)| + hi - lo
  {
    hide Inv, Leaf, Pool, Valid, Ppn, Unmapped, Flags;
    ghost var x := vm.View();
    AddedSame(m, w, x, s, lo, hi, want);
    forall k: nat | lo <= k < hi && Valid(Leaf(x, s, k)) ensures Ppn(Leaf(x, s, k)) in vm.data {
      AddedInData(m, x, s, lo, hi, want, k);
    }
    var r := Uvmdealloc(vm, root, hi * PGSIZE, lo * PGSIZE, s);
    assert PgUp(hi * PGSIZE) == hi && PgUp(lo * PGSIZE) == lo;
    UnmappedSteady(x, vm.View(), s, lo, hi - lo, true);
    UnmappedFew(x, vm.View(), s, lo, hi - lo);
    AddedUndone(m, x, vm.View(), s, lo, hi, want);
  }

  lemma {:induction false} AddedSame(m: Mem, w: Mem, x: Mem, s: nat, lo: nat, hi: nat, want: nat -> Option<UPage>)
    requires Added(m, w, s, lo, hi, want) && SameLeaves(w, x) && x.data == w.data
    ensures Added(m, x, s, lo, hi, want)
  {
    hide Leaf, Valid, Ppn, Flags;
    forall k: nat | lo <= k < hi
      ensures if want(k).Some? then IsNew(m, x, s, k, want(k).value) else Leaf(x, s, k) == 0
    {
      assert want(k).Some? ==> IsNew(m, w, s, k, want(k).value);
    }
    forall q | q in x.data && q !in m.data ensures MappedIn(x, s, lo, hi, q) {
      var k: nat :| lo <= k < hi && Valid(Leaf(w, s, k)) && Ppn(Leaf(w, s, k)) == q;
      assert Leaf(x, s, k) == Leaf(w, s, k);
    }
  }

  /** Unmapping frees no more pages than it unmaps. */
  lemma {:induction false} UnmappedFew(m: Mem, r: Mem, s: nat, n: nat, count: nat)
    requires Unmapped(m, r, s, n, count, true)
    ensures |r.free| <= |m.free| + count
  {
    FewPages(m, s, n, count);
  }

  lemma {:induction false} FewPages(m: Mem, s: nat, n: nat, count: nat)
    ensures |PagesOf(m, s, n, count)| <= count
  {
    hide Leaf, Valid, Ppn;
    if count > 0 {
      FewPages(m, s, n, count - 1);
    }
  }

  lemma {:induction false} UnmappedSteady(m: Mem, r: Mem, s: nat, n: nat, count: nat, doFree: bool)
    requires Unmapped(m, r, s, n, count, doFree)
    ensures Steady(m, r)
  {
  }

  ghost function PagesFrom(m: Mem, s: nat): (want: nat -> Option<UPage>) {
    (k: nat) => PageAt(m, s, k)
  }

  /** uvmcopy: every data page of space s below sz is copied into space c, or, when a page cannot be had, all mappings
      and data pages are as they were. */
  method Uvmcopy(vm: Vm, source: nat, target: nat, sz: nat, ghost s: nat, ghost c: nat) returns (ok: bool)
    requires Inv(vm.View()) && s in vm.roots && vm.roots[s] == source && c in vm.roots && vm.roots[c] == target
             && s != c
    requires PgUp(sz) <= MAXPAGES
    requires forall k: nat :: k < PgUp(sz) ==> Leaf(vm.View(), c, k) == 0
    requires forall k: nat :: k < PgUp(sz) && Valid(Leaf(vm.View(), s, k)) ==> Ppn(Leaf(vm.View(), s, k)) in vm.data
    modifies vm`free, vm`tables, vm`data
    ensures Steady(old(vm.View()), vm.View())
    ensures 3 * PgUp(sz) <= |old(vm.free)| ==> ok
    ensures var m := old(vm.View());
            if ok then Added(m, vm.View(), c, 0, PgUp(sz), PagesFrom(m, s))
            else SameLeaves(m, vm.View()) && vm.data == m.data && |vm.free| <= PgUp(sz)
  {
    hide Inv, Leaf, Pool, Valid, Ppn, MakePte, Missing, Flags, NewPage, SameLeaves, IsNew;
    ghost var m := vm.View();
    ghost var want := PagesFrom(m, s);
    AddedNone(m, c, 0, want);
    var i := 0;
    while i * PGSIZE < sz
      invariant i <= PgUp(sz) && Steady(m, vm.View()) && Added(m, vm.View(), c, 0, i, want)
      invariant |m.free| <= |vm.free| + 3 * i
      decreases PgUp(sz) - i
    {
      ghost var w := vm.View();
      assert Leaf(w, s, i) == Leaf(m, s, i) && Leaf(w, c, i) == Leaf(m, c, i);
      var pte := Lookup(vm, source, i, s);
      if Valid(pte) {
        SourcePage(m, w, s, i);
        var q := MapNew(vm, target, i, vm.data[Ppn(pte)], Flags(pte), c);
        if q == None {
          UndoCopy(vm, target, i, want, m, w, c);
          return false;
        }
        AddedMore(m, w, vm.View(), c, 0, i, want, q.value, w.data[Ppn(pte)], Flags(pte));
      } else {
        AddedSkip(m, w, c, 0, i, want);
      }
      i := i + 1;
    }
    ok := true;
  }

  lemma {:induction false} SourcePage(m: Mem, w: Mem, s: nat, i: nat)
    requires Valid(Leaf(m, s, i)) && Ppn(Leaf(m, s, i)) in m.data
    requires forall q :: q in m.data ==> q in w.data && w.data[q] == m.data[q]
    ensures var e := Leaf(m, s, i);
            && Flags(e) < 1024 && Flags(e) % 2 == 1 && Ppn(e) in w.data
            && PageAt(m, s, i) == Some(UPage(w.data[Ppn(e)], Flags(e)))
  {
  }

  /** uvmcopy's error path. */
  method UndoCopy(vm: Vm, root: nat, i: nat, ghost want: nat -> Option<UPage>, ghost m: Mem, ghost w: Mem, ghost c: nat)
    requires Inv(vm.View()) && c in vm.roots && vm.roots[c] == root && i <= MAXPAGES
    requires Added(m, w, c, 0, i, want) && Steady(m, vm.View()) && SameLeaves(w, vm.View()) && vm.data == w.data
    requires forall k: nat :: k < i ==> Leaf(m, c, k) == 0
    modifies vm`free, vm`tables, vm`data
    ensures Steady(m, vm.View()) && SameLeaves(m, vm.View()) && vm.data == m.data && |vm.free| <= |old(vm.free)| + i
  {
    hide Inv, Leaf, Pool, Valid, Ppn, Unmapped, Flags;
    ghost var x := vm.View();
    AddedSame(m, w, x, c, 0, i, want);
    forall k: nat | 0 <= k < i && Valid(Leaf(x, c, k)) ensures Ppn(Leaf(x, c, k)) in vm.data {
      AddedInData(m, x, c, 0, i, want, k);
    }
    vm.Uvmunmap(root, 0, i, true, c);
    UnmappedSteady(x, vm.View(), c, 0, i, true);
    UnmappedFew(x, vm.View(), c, 0, i);
    AddedUndone(m, x, vm.View(), c, 0, i, want);
  }

  /** walk without alloc, and the entry it finds; 0 when there is no table. */
  method Lookup(vm: Vm, root: nat, n: nat, ghost s: nat) returns (pte: nat)
    requires Inv(vm.View()) && s in vm.roots && vm.roots[s] == root && n < MAXPAGES
    modifies vm`free, vm`tables
    ensures vm.View() == old(vm.View()) && pte == Leaf(vm.View(), s, n)
  {
    hide Inv, Pool, SameLeaves, Missing, Valid, Ppn;
    var e := vm.Walk(root, n, false, s);
    if e == None {
      NoTableNoLeaf(vm.View(), s, n);
      return 0;
    }
    pte := vm.tables[e.value.0][e.value.1];
  }
}
