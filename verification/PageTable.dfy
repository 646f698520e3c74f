/** kernel/vm.c on the pages of kernel/kalloc.c. */
module PageTable {
  import opened Blocks
  import opened VmSpec

  // ---- what a walk needs

  /** The place a walk to page n is at on a level. */
  function PosFor(s: nat, level: nat, n: nat): (pos: Pos)
    requires level <= 2
  {
    if level == 2 then Top(s) else if level == 1 then Mid(s, n / ENTRIES / ENTRIES) else Low(s, n / ENTRIES)
  }

  lemma {:induction false} StartsAt(m: Mem, s: nat, n: nat)
    requires s in m.roots
    ensures At(m, PosFor(s, 2, n)) == Some(m.roots[s])
  {
  }

  /** At the last level the walk is done. */
  lemma {:induction false} WalkDone(m: Mem, s: nat, n: nat)
    ensures Missing(m, s, 0, n) == 0 && PosFor(s, 0, n) == Low(s, n / ENTRIES)
  {
    hide At;
  }

  /** A valid entry leads to the table below. */
  lemma {:induction false} StepInto(m: Mem, s: nat, level: nat, n: nat, p: nat)
    requires 0 < level <= 2 && n < MAXPAGES && At(m, PosFor(s, level, n)) == Some(p) && p in m.tables
    ensures Px(level, n) < ENTRIES
    ensures Valid(m.tables[p][Px(level, n)]) ==>
              && At(m, PosFor(s, level - 1, n)) == Some(Ppn(m.tables[p][Px(level, n)]))
              && Missing(m, s, level, n) == Missing(m, s, level - 1, n)
    ensures !Valid(m.tables[p][Px(level, n)]) ==> Missing(m, s, level, n) > 0
  {
    hide Valid, Ppn;
    NextPos(m, s, level, n);
    NothingValid();
  }

  lemma {:induction false} NextPos(m: Mem, s: nat, level: nat, n: nat)
    requires 0 < level <= 2 && n < MAXPAGES
    ensures Below(PosFor(s, level, n), Px(level, n)) == PosFor(s, level - 1, n)
    ensures At(m, PosFor(s, level - 1, n)) == Child(EntryOf(m, At(m, PosFor(s, level, n)), Px(level, n)))
  {
    assert n / ENTRIES / ENTRIES == n / (ENTRIES * ENTRIES) < ENTRIES;
  }

  /** How many tables are missing below a level on the way to page n. */
  ghost function Missing(m: Mem, s: nat, level: nat, n: nat): (k: nat) {
    (if level >= 1 && At(m, PosFor(s, 0, n)) == None then 1 else 0) +
    (if level >= 2 && At(m, PosFor(s, 1, n)) == None then 1 else 0)
  }

  /** A page needs at most two tables. */
  lemma {:induction false} MissingFew(m: Mem, s: nat, n: nat)
    ensures Missing(m, s, 2, n) <= 2
  {
  }

  /** From m to r some free pages became tables; no mapping changed. */
  ghost predicate OnlyTables(m: Mem, r: Mem) {
    && Inv(r) && SameLeaves(m, r) && r.data == m.data && r.roots == m.roots && Pool(r) == Pool(m)
    && |r.free| <= |m.free| && r.free == m.free[|m.free| - |r.free|..]
  }

  lemma {:induction false} OnlyTablesTrans(m: Mem, r: Mem, q: Mem)
    requires OnlyTables(m, r) && OnlyTables(r, q)
    ensures OnlyTables(m, q)
  {
    hide Inv, Leaf, Pool;
    assert SameLeaves(m, q);
  }

  lemma {:induction false} OnlyTablesSelf(m: Mem)
    requires Inv(m)
    ensures OnlyTables(m, m)
  {
  }

  /** One step down that has to make the table. */
  lemma {:induction false} StepDown(m: Mem, s: nat, level: nat, n: nat, p: nat)
    requires Inv(m) && 0 < level <= 2 && n < MAXPAGES && At(m, PosFor(s, level, n)) == Some(p)
    requires p in m.tables && !Valid(m.tables[p][Px(level, n)]) && m.free != []
    ensures var r := Extended(m, p, Px(level, n));
            && OnlyTables(m, r) && At(r, PosFor(s, level - 1, n)) == Some(m.free[0])
            && Missing(m, s, level, n) == 1 + Missing(r, s, level - 1, n)
  {
    hide Inv, Extended, Leaf, Valid, SameLeaves;
    CanStepDown(m, s, level, n, p);
    ExtendedInv(m, PosFor(s, level, n), Px(level, n));
    NextPos(m, s, level, n);
    var r := Extended(m, p, Px(level, n));
    ExtendedAt(m, PosFor(s, level, n), Px(level, n), PosFor(s, level - 1, n));
    if level == 2 {
      ExtendedAt(m, PosFor(s, level, n), Px(level, n), PosFor(s, 0, n));
      NextPos(m, s, 1, n);
    }
    ExtendedFree(m, p, Px(level, n));
    ExtendedPoolSet(m, p, Px(level, n));
    NothingValid();
  }

  lemma {:induction false} CanStepDown(m: Mem, s: nat, level: nat, n: nat, p: nat)
    requires Inv(m) && 0 < level <= 2 && n < MAXPAGES && At(m, PosFor(s, level, n)) == Some(p)
    requires p in m.tables && !Valid(m.tables[p][Px(level, n)]) && m.free != []
    ensures CanExtend(m, PosFor(s, level, n), Px(level, n))
  {
  }

  lemma {:induction false} ExtendedIs(m: Mem, r: Mem, p: nat, i: nat)
    requires m.free != [] && p in m.tables && i < ENTRIES
    requires r.free == m.free[1..] && r.data == m.data && r.roots == m.roots
    requires r.tables == m.tables[p := m.tables[p][i := MakePte(m.free[0], 0)]][m.free[0] := ZeroTable()]
    ensures r == Extended(m, p, i)
  {
  }

  lemma {:induction false} ExtendedFree(m: Mem, p: nat, i: nat)
    requires m.free != [] && p in m.tables && i < ENTRIES
    ensures var r := Extended(m, p, i); r.free == m.free[1..] && r.data == m.data && r.roots == m.roots
  {
  }

  // ---- mapping

  /** What every operation keeps: the invariant, the spaces, and the set of all pages. */
  ghost predicate Steady(m: Mem, r: Mem) {
    Inv(r) && r.roots == m.roots && Pool(r) == Pool(m)
  }

  /** Pages n to n + done of space s are mapped to p, p + 1, ...; nothing else changed. */
  ghost predicate MappedTo(m: Mem, r: Mem, s: nat, n: nat, done: nat, p: nat, perm: nat)
    requires perm < 1024
  {
    forall t, k: nat :: Leaf(r, t, k) == if t == s && n <= k < n + done then MakePte(p + k - n, perm) else Leaf(m, t, k)
  }

  /** A page that may get one more mapping: not free, not a table, and a data page only if nothing maps it. */
  ghost predicate Mappable(m: Mem, p: nat) {
    p !in m.free && p !in m.tables && (p in m.data ==> NotMapped(m, p))
  }

  lemma {:induction false} MappableStays(m: Mem, r: Mem, p: nat)
    requires Mappable(m, p) && OnlyTables(m, r)
    ensures Mappable(r, p)
  {
    hide Leaf, Valid, Ppn;
    assert p in r.free ==> p in m.free;
    assert p in r.tables ==> p in Pool(r);
    assert p in Pool(m) ==> p in m.data;
    assert p in m.data && p in r.tables ==> p in r.data;
  }

  lemma {:induction false} CanMapPage(m: Mem, s: nat, n: nat, p: nat, perm: nat)
    requires Mappable(m, p) && perm < 1024
    ensures CanMap(m, s, n, MakePte(p, perm))
  {
    hide Leaf, Valid, Ppn, MakePte;
    PteRoundTrip(p, perm);
  }

  lemma {:induction false} LeafSetAfter(m: Mem, q: Mem, r: Mem, s: nat, n: nat, pte: nat)
    requires SameLeaves(m, q) && LeafSet(q, r, s, n, pte)
    ensures LeafSet(m, r, s, n, pte)
  {
    hide Leaf;
  }

  /** Mapping one page leaves the others mappable. */
  lemma {:induction false} StillMappable(m: Mem, r: Mem, s: nat, n: nat, p: nat, perm: nat, q: nat)
    requires Mappable(m, q) && q != p && perm < 1024 && LeafSet(m, r, s, n, MakePte(p, perm))
    requires r.data == m.data && Pool(r) == Pool(m) && Inv(r) && (forall x :: x in r.free ==> x in m.free)
    ensures Mappable(r, q)
  {
    hide Leaf, Valid, Ppn, MakePte;
    PteRoundTrip(p, perm);
    assert q in r.tables ==> q in Pool(m);
  }

  // ---- unmapping

  /** Pages n to n + count of space s are unmapped; nothing else changed. */
  ghost predicate Cleared(m: Mem, r: Mem, s: nat, n: nat, count: nat) {
    forall t, k: nat :: Leaf(r, t, k) == if t == s && n <= k < n + count then 0 else Leaf(m, t, k)
  }

  /** The physical pages mapped by pages n to n + count of space s, the last first. */
  ghost function PagesOf(m: Mem, s: nat, n: nat, count: nat): (r: seq<nat>) {
    if count == 0 then [] else
      (if Valid(Leaf(m, s, n + count - 1)) then [Ppn(Leaf(m, s, n + count - 1))] else []) + PagesOf(m, s, n, count - 1)
  }

  lemma {:induction false} PagesOfHas(m: Mem, s: nat, n: nat, count: nat, q: nat)
    ensures q in PagesOf(m, s, n, count) <==>
            exists k: nat :: n <= k < n + count && Valid(Leaf(m, s, k)) && Ppn(Leaf(m, s, k)) == q
  {
    hide Leaf, Valid, Ppn;
    if count > 0 {
      PagesOfHas(m, s, n, count - 1, q);
      var last := Leaf(m, s, n + count - 1);
      assert q in PagesOf(m, s, n, count) <==> q in PagesOf(m, s, n, count - 1) || (Valid(last) && Ppn(last) == q);
    }
  }

  /** A page not unmapped yet has not been freed. */
  lemma {:induction false} NotFreedYet(m: Mem, s: nat, n: nat, count: nat)
    requires OneMapping(m) && Valid(Leaf(m, s, n + count)) && Ppn(Leaf(m, s, n + count)) in m.data
    ensures Ppn(Leaf(m, s, n + count)) !in PagesOf(m, s, n, count)
  {
    hide Leaf, Valid, Ppn;
    var q := Ppn(Leaf(m, s, n + count));
    PagesOfHas(m, s, n, count, q);
    forall k: nat | n <= k < n + count && Valid(Leaf(m, s, k)) ensures Ppn(Leaf(m, s, k)) != q {
      assert !MapsTo(m, s, k, s, n + count);
    }
  }

  /** With its one entry cleared, a data page is not mapped. */
  lemma {:induction false} ClearedNotMapped(m: Mem, r: Mem, s: nat, n: nat)
    requires OneMapping(m) && Valid(Leaf(m, s, n)) && Ppn(Leaf(m, s, n)) in m.data && LeafSet(m, r, s, n, 0)
    ensures NotMapped(r, Ppn(Leaf(m, s, n)))
  {
    hide Leaf, Valid, Ppn;
    NothingValid();
    forall t, k: nat | Valid(Leaf(r, t, k)) ensures Ppn(Leaf(r, t, k)) != Ppn(Leaf(m, s, n)) {
      assert t == s && k == n ==> Leaf(r, t, k) == 0;
      assert Leaf(r, t, k) == Leaf(m, t, k);
      assert !MapsTo(m, t, k, s, n) || (t == s && k == n);
    }
  }

  lemma {:induction false} NoTableNoLeaf(m: Mem, s: nat, n: nat)
    requires n < MAXPAGES && Missing(m, s, 2, n) > 0
    ensures Leaf(m, s, n) == 0
  {
    NextPos(m, s, 1, n);
  }

  /** kfree on top of clearing the entry. */
  lemma {:induction false} UnmapFreed(m: Mem, s: nat, n: nat)
    requires Inv(m) && At(m, Low(s, n / ENTRIES)).Some? && Valid(Leaf(m, s, n)) && Ppn(Leaf(m, s, n)) in m.data
    ensures At(m, Low(s, n / ENTRIES)).value in m.tables
    ensures var r := Released(Written(m, At(m, Low(s, n / ENTRIES)).value, n % ENTRIES, 0), Ppn(Leaf(m, s, n)));
            Steady(m, r) && LeafSet(m, r, s, n, 0) && SameTree(m, r)
  {
    hide At, Leaf, Pool, OneMapping, TablesOk, OneTree, LeavesOk, Ppn;
    var q := Ppn(Leaf(m, s, n));
    ClearOk(m, s, n);
    WrittenInv(m, s, n, 0);
    var w := Written(m, At(m, Low(s, n / ENTRIES)).value, n % ENTRIES, 0);
    ClearedNotMapped(m, w, s, n);
    ReleasedInv(w, q);
    ReleasedPoolSet(w, q);
    SamePoolSet(m, w);
    SameAfter(m, w, Released(w, q), s, n);
    forall a ensures At(Released(w, q), a) == At(m, a) {
      SameTablesAt(w, Released(w, q), a);
    }
  }

  lemma {:induction false} ClearOk(m: Mem, s: nat, n: nat)
    ensures CanMap(m, s, n, 0)
  {
    NothingValid();
  }

  lemma {:induction false} SameAfter(m: Mem, w: Mem, r: Mem, s: nat, n: nat)
    requires LeafSet(m, w, s, n, 0) && SameLeaves(w, r)
    ensures LeafSet(m, r, s, n, 0)
  {
    hide Leaf;
  }

  lemma {:induction false} UnmapKept(m: Mem, s: nat, n: nat)
    requires Inv(m) && At(m, Low(s, n / ENTRIES)).Some?
    ensures At(m, Low(s, n / ENTRIES)).value in m.tables
    ensures var w := Written(m, At(m, Low(s, n / ENTRIES)).value, n % ENTRIES, 0);
            Steady(m, w) && LeafSet(m, w, s, n, 0) && SameTree(m, w)
  {
    hide At, Leaf, Pool, OneMapping, TablesOk, OneTree, LeavesOk;
    ClearOk(m, s, n);
    WrittenInv(m, s, n, 0);
    SamePoolSet(m, Written(m, At(m, Low(s, n / ENTRIES)).value, n % ENTRIES, 0));
  }

  /** Page n of space s is unmapped, and its page freed if doFree. */
  ghost predicate UnmapStep(m: Mem, r: Mem, s: nat, n: nat, doFree: bool) {
    && Steady(m, r) && LeafSet(m, r, s, n, 0) && SameTree(m, r) && r.tables.Keys == m.tables.Keys
    && if doFree && Valid(Leaf(m, s, n))
       then r.free == [Ppn(Leaf(m, s, n))] + m.free && r.data == m.data - {Ppn(Leaf(m, s, n))}
       else r.free == m.free && r.data == m.data
  }

  /** Pages n to n + count of space s are unmapped, and their pages freed if doFree. */
  ghost predicate Unmapped(m: Mem, r: Mem, s: nat, n: nat, count: nat, doFree: bool) {
    && Steady(m, r) && Cleared(m, r, s, n, count) && SameTree(m, r) && r.tables.Keys == m.tables.Keys
    && if doFree then r.free == PagesOf(m, s, n, count) + m.free && r.data == m.data - Items(PagesOf(m, s, n, count))
       else r.free == m.free && r.data == m.data
  }

  lemma {:induction false} UnmappedNone(m: Mem, s: nat, n: nat, doFree: bool)
    requires Inv(m)
    ensures Unmapped(m, m, s, n, 0, doFree)
  {
    hide Inv, Leaf, Pool;
    assert m.data - Items([]) == m.data;
  }

  lemma {:induction false} UnmappedMore(m: Mem, w: Mem, r: Mem, s: nat, n: nat, count: nat, doFree: bool)
    requires Unmapped(m, w, s, n, count, doFree) && UnmapStep(w, r, s, n + count, doFree)
    ensures Unmapped(m, r, s, n, count + 1, doFree)
  {
    hide Inv, Leaf, Pool, Valid, Ppn, SameTree, Cleared, LeafSet;
    ClearedMore(m, w, r, s, n, count);
    ClearedNext(m, w, s, n, count);
    SameTreeTrans(m, w, r);
    if doFree && Valid(Leaf(m, s, n + count)) {
      var q := Ppn(Leaf(m, s, n + count));
      assert Items([q] + PagesOf(m, s, n, count)) == {q} + Items(PagesOf(m, s, n, count));
      assert r.data == m.data - Items([q] + PagesOf(m, s, n, count));
    } else {
      assert [] + PagesOf(m, s, n, count) == PagesOf(m, s, n, count);
    }
  }

  lemma {:induction false} SameTreeTrans(m: Mem, w: Mem, r: Mem)
    requires SameTree(m, w) && SameTree(w, r)
    ensures SameTree(m, r)
  {
    hide At;
  }

  lemma {:induction false} ClearedNext(m: Mem, w: Mem, s: nat, n: nat, count: nat)
    requires Cleared(m, w, s, n, count)
    ensures Leaf(w, s, n + count) == Leaf(m, s, n + count)
  {
    hide Leaf;
  }

  lemma {:induction false} UnmappedNext(m: Mem, w: Mem, s: nat, n: nat, count: nat, doFree: bool)
    requires Inv(m) && Unmapped(m, w, s, n, count, doFree)
    requires doFree && Valid(Leaf(m, s, n + count)) ==> Ppn(Leaf(m, s, n + count)) in m.data
    ensures Leaf(w, s, n + count) == Leaf(m, s, n + count) && Inv(w) && w.roots == m.roots
    ensures doFree && Valid(Leaf(m, s, n + count)) ==> Ppn(Leaf(m, s, n + count)) in w.data
  {
    hide TablesOk, OneTree, LeavesOk, PoolOk, Leaf, Pool, Valid, Ppn;
    if doFree && Valid(Leaf(m, s, n + count)) {
      NotFreedYet(m, s, n, count);
    }
  }

  lemma {:induction false} InvalidIsClear(m: Mem, s: nat, n: nat)
    requires Inv(m) && !Valid(Leaf(m, s, n))
    ensures Leaf(m, s, n) == 0 && LeafSet(m, m, s, n, 0)
  {
    assert LeafOk(m, Leaf(m, s, n));
  }

  /** Clearing the entry, and freeing the page if doFree, is one step of unmapping. */
  lemma {:induction false} OneUnmapped(m: Mem, r: Mem, s: nat, n: nat, t: nat, doFree: bool)
    requires Inv(m) && At(m, Low(s, n / ENTRIES)) == Some(t) && t in m.tables && Valid(Leaf(m, s, n))
    requires doFree ==> Ppn(Leaf(m, s, n)) in m.data
    requires r.tables == m.tables[t := m.tables[t][n % ENTRIES := 0]] && r.roots == m.roots
    requires if doFree then r.free == [Ppn(Leaf(m, s, n))] + m.free && r.data == m.data - {Ppn(Leaf(m, s, n))}
             else r.free == m.free && r.data == m.data
    ensures UnmapStep(m, r, s, n, doFree)
  {
    hide Inv, Pool, Valid, At, Ppn, LeafSet, Leaf, SameTree;
    if doFree {
      UnmapFreed(m, s, n);
      assert r == Released(Written(m, t, n % ENTRIES, 0), Ppn(Leaf(m, s, n)));
    } else {
      UnmapKept(m, s, n);
      assert r == Written(m, t, n % ENTRIES, 0);
    }
  }

  lemma {:induction false} NothingUnmapped(m: Mem, s: nat, n: nat, doFree: bool)
    requires Inv(m) && !Valid(Leaf(m, s, n))
    ensures UnmapStep(m, m, s, n, doFree)
  {
    hide Inv, Pool, Leaf, Valid, LeafSet;
    InvalidIsClear(m, s, n);
  }

  lemma {:induction false} LeafEntry(m: Mem, s: nat, n: nat)
    requires At(m, Low(s, n / ENTRIES)).Some? && At(m, Low(s, n / ENTRIES)).value in m.tables
    ensures Leaf(m, s, n) == m.tables[At(m, Low(s, n / ENTRIES)).value][n % ENTRIES]
  {
    hide At;
  }

  class Vm {
    var free: seq<nat>
    var tables: map<nat, Table>
    var data: map<nat, Page>
    ghost var roots: map<nat, nat>

    ghost function View(): (m: Mem)
      reads this
    {
      Mem(free, tables, data, roots)
    }

    /** walk: the entry for page n as a table page and an index, making missing tables if alloc. */
    method Walk(root: nat, n: nat, alloc: bool, ghost s: nat) returns (r: Option<(nat, nat)>)
      requires Inv(View()) && s in roots && roots[s] == root && n < MAXPAGES
      modifies this`free, this`tables
      ensures OnlyTables(old(View()), View()) && (!alloc ==> View() == old(View()))
      ensures r.Some? <==> Missing(old(View()), s, 2, n) <= if alloc then |old(free)| else 0
      ensures alloc && r == None ==> free == []
      ensures r.Some? ==> |free| + Missing(old(View()), s, 2, n) == |old(free)|
      ensures r.Some? ==>
                r.value.0 in tables && At(View(), Low(s, n / ENTRIES)) == Some(r.value.0) && r.value.1 == n % ENTRIES
    {
      hide Inv, Leaf, SameLeaves, Valid, Pool, At, Missing, PosFor, Extended, Ppn;
      OnlyTablesSelf(View());
      StartsAt(View(), s, n);
      var level: nat := 2;
      var p := root;
      while level > 0
        invariant level <= 2 && OnlyTables(old(View()), View()) && (!alloc ==> View() == old(View()))
        invariant At(View(), PosFor(s, level, n)) == Some(p)
        invariant Missing(old(View()), s, 2, n) == Missing(View(), s, level, n) + |old(free)| - |free|
      {
        InTables(View(), PosFor(s, level, n));
        StepInto(View(), s, level, n, p);
        var pte := tables[p][Px(level, n)];
        if Valid(pte) {
          p := Ppn(pte);
        } else {
          if !alloc || free == [] {
            return None;
          }
          ghost var m := View();
          StepDown(m, s, level, n, p);
          var q := Kalloc();
          tables := tables[p := tables[p][Px(level, n) := MakePte(q.value, 0)]][q.value := ZeroTable()];
          ExtendedIs(m, View(), p, Px(level, n));
          OnlyTablesTrans(old(View()), m, View());
          p := q.value;
        }
        level := level - 1;
      }
      InTables(View(), PosFor(s, 0, n));
      WalkDone(View(), s, n);
      return Some((p, Px(0, n)));
    }

    /** kalloc: the page at the head of the free list. */
    method Kalloc() returns (p: Option<nat>)
      modifies this`free
      ensures if old(free) == [] then p == None && free == [] else p == Some(old(free)[0]) && free == old(free)[1..]
    {
      p := None;
      if free != [] {
        p := Some(free[0]);
        free := free[1..];
      }
    }

    /** One round of mappages' loop: page n of space s is mapped to physical page p, or there is no page for a table. */
    method MapOne(root: nat, n: nat, p: nat, perm: nat, ghost s: nat) returns (ok: bool)
      requires Inv(View()) && s in roots && roots[s] == root && n < MAXPAGES && perm < 1024 && Leaf(View(), s, n) == 0
      requires Mappable(View(), p)
      modifies this`free, this`tables
      ensures Steady(old(View()), View()) && data == old(data) && forall x :: x in free ==> x in old(free)
      ensures ok <==> Missing(old(View()), s, 2, n) <= |old(free)|
      ensures ok ==> |free| + Missing(old(View()), s, 2, n) == |old(free)|
      ensures if ok then LeafSet(old(View()), View(), s, n, MakePte(p, perm))
              else SameLeaves(old(View()), View()) && free == []
    {
      hide Inv, Leaf, Pool, Valid, At, MakePte, Ppn;
      var e := Walk(root, n, true, s);
      if e == None {
        return false;
      }
      var (t, i) := e.value;
      ghost var m := View();
      MappableStays(old(View()), m, p);
      CanMapPage(m, s, n, p, perm);
      WrittenInv(m, s, n, MakePte(p, perm));
      tables := tables[t := tables[t][i := MakePte(p, perm)]];
      assert View() == Written(m, t, i, MakePte(p, perm));
      SamePoolSet(m, View());
      LeafSetAfter(old(View()), m, View(), s, n, MakePte(p, perm));
      ok := true;
    }

    /** kfree: p goes to the head of the free list. */
    method Kfree(p: nat)
      modifies this`free, this`data
      ensures free == [p] + old(free) && data == old(data) - {p}
    {
      free := [p] + free;
      data := data - {p};
    }

    /** One round of uvmunmap's loop. */
    method UnmapOne(root: nat, n: nat, doFree: bool, ghost s: nat)
      requires Inv(View()) && s in roots && roots[s] == root && n < MAXPAGES
      requires doFree && Valid(Leaf(View(), s, n)) ==> Ppn(Leaf(View(), s, n)) in data
      modifies this`free, this`tables, this`data
      ensures UnmapStep(old(View()), View(), s, n, doFree)
    {
      hide Inv, Valid, At, Ppn, Leaf, Missing, UnmapStep, OnlyTables;
      ghost var m := View();
      var e := Walk(root, n, false, s);
      if e == None {
        NoTableNoLeaf(m, s, n);
        NothingValid();
        NothingUnmapped(m, s, n, doFree);
        return;
      }
      var (t, i) := e.value;
      LeafEntry(m, s, n);
      var pte := tables[t][i];
      if !Valid(pte) {
        NothingUnmapped(m, s, n, doFree);
        return;
      }
      if doFree {
        Kfree(Ppn(pte));
      }
      tables := tables[t := tables[t][i := 0]];
      OneUnmapped(m, View(), s, n, t, doFree);
    }

    /** uvmunmap: removes exactly the mappings of its range; with doFree their pages are free again. */
    method Uvmunmap(root: nat, n: nat, npages: nat, doFree: bool, ghost s: nat)
      requires Inv(View()) && s in roots && roots[s] == root && n + npages <= MAXPAGES
      requires doFree ==> forall k: nat :: n <= k < n + npages && Valid(Leaf(View(), s, k)) ==>
                 Ppn(Leaf(View(), s, k)) in data
      modifies this`free, this`tables, this`data
      ensures Unmapped(old(View()), View(), s, n, npages, doFree)
    {
      hide Inv, Pool, Valid, Leaf, Ppn, LeafSet, Unmapped, UnmapStep, PagesOf;
      ghost var m := View();
      UnmappedNone(m, s, n, doFree);
      var a := n;
      while a < n + npages
        invariant n <= a <= n + npages && Unmapped(m, View(), s, n, a - n, doFree)
      {
        ghost var w := View();
        UnmappedNext(m, w, s, n, a - n, doFree);
        UnmapOne(root, a, doFree, s);
        UnmappedMore(m, w, View(), s, n, a - n, doFree);
        a := a + 1;
      }
    }

    /** mappages for a range of pages that are not mapped: all of them, or those before the first for which a table
        page could not be had. */
    method Mappages(root: nat, n: nat, count: nat, p: nat, perm: nat, ghost s: nat) returns (ok: bool, ghost done: nat)
      requires Inv(View()) && s in roots && roots[s] == root && 0 < count && n + count <= MAXPAGES && perm < 1024
      requires forall k: nat :: n <= k < n + count ==> Leaf(View(), s, k) == 0
      requires forall q: nat :: p <= q < p + count ==> Mappable(View(), q)
      modifies this`free, this`tables
      ensures Steady(old(View()), View()) && data == old(data) && done <= count && (ok <==> done == count)
      ensures MappedTo(old(View()), View(), s, n, done, p, perm)
      ensures !ok ==> free == []
      ensures ok ==> |old(free)| <= |free| + 2 * count
      ensures 2 * count <= |old(free)| ==> ok
      ensures done > 0 <==> Missing(old(View()), s, 2, n) <= |old(free)|
    {
      hide Inv, Leaf, Pool, MakePte, Mappable, Missing;
      ghost var m := View();
      done := 0;
      var a, last, pa := n, n + count - 1, p;
      while true
        invariant done < count && a == n + done && pa == p + done && Steady(m, View()) && data == m.data
        invariant MappedTo(m, View(), s, n, done, p, perm)
        invariant |m.free| <= |free| + 2 * done
        invariant if done == 0 then View() == m else Missing(m, s, 2, n) <= |m.free|
        invariant forall q: nat :: pa <= q < p + count ==> Mappable(View(), q)
        decreases last - a
      {
        ghost var was := View();
        MissingFew(was, s, a);
        ok := MapOne(root, a, pa, perm, s);
        if !ok {
          return;
        }
        forall q: nat | pa + 1 <= q < p + count ensures Mappable(View(), q) {
          StillMappable(was, View(), s, a, pa, perm, q);
        }
        done := done + 1;
        if a == last {
          break;
        }
        a, pa := a + 1, pa + 1;
      }
    }
  }

  lemma {:induction false} ClearedMore(m: Mem, w: Mem, r: Mem, s: nat, n: nat, count: nat)
    requires Cleared(m, w, s, n, count) && LeafSet(w, r, s, n + count, 0)
    ensures Cleared(m, r, s, n, count + 1)
  {
    hide Leaf;
  }

  lemma {:induction false} InTables(m: Mem, pos: Pos)
    requires Inv(m) && At(m, pos).Some?
    ensures At(m, pos).value in m.tables
  {
  }
}
