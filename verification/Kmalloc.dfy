/** kernel/kmalloc.c, proved against SlabSpec. */
module Kmalloc {
  import opened Blocks
  import opened SlabSpec

  class Kheap {
    var free: seq<nat>
    var pages: map<nat, Header>
    var classes: seq<Class>
    ghost var live: set<nat>

    ghost function View(): (h: Heap)
      reads this
    {
      Heap(free, pages, classes, live)
    }

    /** kheapinit, on a pool of free pages. */
    constructor (pool: seq<nat>)
      requires forall i, j :: 0 <= i < j < |pool| ==> pool[i] != pool[j]
      ensures Inv(View()) && live == {} && free == pool && pages == map[]
    {
      free := pool;
      pages := map[];
      var none := Class([], 0, 0, 0);
      classes := [none, none, none, none, none, none, none];
      live := {};
    }

    /** class_index: the smallest class whose objects have n bytes; -1 if there is none. */
    method ClassIndex(n: nat) returns (r: int)
      ensures r == -1 <==> n > 2048
      ensures r != -1 ==> 0 <= r < CLASSES && n <= ClassSize(r) && forall c: nat :: c < r ==> ClassSize(c) < n
    {
      var i: nat := 0;
      while i < CLASSES
        invariant i <= CLASSES && forall c: nat :: c < i ==> ClassSize(c) < n
      {
        if n <= ClassSize(i) {
          return i;
        }
        i := i + 1;
      }
      assert ClassSize(6) < n;
      r := -1;
    }

    /** find_page_with_space: the first page of the class that has a free object. */
    method FindPage(c: nat) returns (r: Option<nat>)
      requires Sound(View()) && c < CLASSES
      ensures r.Some? ==>
                r.value in classes[c].pages && r.value in pages && pages[r.value].Slab? && pages[r.value].nfree > 0
                          && pages[r.value].c == c
      ensures r == None <==> NoRoom(View(), classes[c].pages)
    {
      hide PageOk, LiveOk;
      assert ClassOk(View(), c);
      var l := classes[c].pages;
      var k := 0;
      while k < |l|
        invariant k <= |l| && forall j :: 0 <= j < k ==> pages[l[j]].nfree == 0
      {
        assert l[k] in l;
        if pages[l[k]].nfree > 0 {
          return Some(l[k]);
        }
        k := k + 1;
      }
      r := None;
    }

    /** grow_class: a page cut into objects of class c, or false when there is no free page. */
    method GrowClass(c: nat) returns (ok: bool)
      requires Inv(View()) && c < CLASSES
      modifies this
      ensures ok <==> old(free) != []
      ensures if ok then View() == Grown(old(View()), c) else View() == old(View())
    {
      if free == [] {
        return false;
      }
      var p := free[0];
      free := free[1..];
      var objs: seq<nat> := [];
      var i: nat := 0;
      while i < Count(c)
        invariant i <= Count(c) && objs == FirstObjs(p, c, i)
      {
        objs := [Obj(p, c, i)] + objs;
        i := i + 1;
      }
      pages := pages[p := Slab(c, Count(c), Count(c), objs)];
      var k := classes[c];
      classes := classes[c := Class([p] + k.pages, k.npages + 1, k.ntotal + Count(c), k.nfree + Count(c))];
      ok := true;
    }

    /** alloc_big. */
    method AllocBig(n: nat) returns (r: Option<nat>)
      requires Inv(View())
      modifies this
      ensures r == None <==> n > PGSIZE - HEADER || old(free) == []
      ensures if r == None then View() == old(View())
              else r == Some(Base(old(free)[0])) && View() == BigTaken(old(View()), n)
    {
      if n > PGSIZE - HEADER {
        return None;
      }
      if free == [] {
        return None;
      }
      var p := free[0];
      free := free[1..];
      pages := pages[p := Big(n)];
      live := live + {Base(p)};
      r := Some(Base(p));
    }

    /** The end of kmalloc: the first free object of page p, which has one. */
    method TakeFrom(p: nat) returns (a: nat, panicked: bool)
      requires CanTake(View(), p)
      modifies this
      ensures !panicked && Sound(View()) && Pool(View()) == old(Pool(View())) && a !in old(live)
              && live == old(live) + {a}
      ensures old(pages[p]).objs != [] && old(pages[p]).nfree > 0
      ensures pages ==
                old(pages)[p := old(pages[p]).(nfree := old(pages[p]).nfree - 1, objs := old(pages[p]).objs[1..])]
      ensures a / PGSIZE == p && free == old(free)
    {
      a, panicked := 0, true;
      TakeCounts(View(), p);
      TakeMoves(View(), p);
      var x := pages[p];
      var c := x.c;
      ghost var h := View();
      MovedSound(h, p, x.objs[1..], live + {x.objs[0]}, x.objs[0]);
      TakenFrom(h, p);
      if x.objs == [] {
        return;
      }
      if x.nfree == 0 || classes[c].nfree == 0 {
        return;
      }
      a := x.objs[0];
      pages := pages[p := Slab(c, x.total, x.nfree - 1, x.objs[1..])];
      classes := classes[c := classes[c].(nfree := classes[c].nfree - 1)];
      live := live + {a};
      assert View() == Moved(h, p, x.objs[1..], h.live + {a});
      panicked := false;
    }

    /** kmalloc: an object of at least n bytes that was not in use, from a page of its class with room or a new page,
        or a page of its own; None for no bytes, too many, or when a page is needed and there is none. */
    method Alloc(n: nat) returns (r: Option<nat>, panicked: bool)
      requires Inv(View())
      modifies this
      ensures !panicked && Inv(View()) && Pool(View()) == old(Pool(View()))
      ensures if r == None then View() == old(View())
              else r.value !in old(live) && live == old(live) + {r.value} && SizeAt(View(), r.value) >= n
      ensures r == None <==> n == 0 || n > PGSIZE - HEADER || (old(free) == [] && NeedsPage(old(View()), n))
      ensures forall a: nat :: a in old(live) ==> SizeAt(View(), a) == SizeAt(old(View()), a)
      ensures r.Some? && NeedsPage(old(View()), n) ==> old(free) != [] && free == old(free)[1..]
      ensures r.Some? && !NeedsPage(old(View()), n) ==> free == old(free)
      ensures r.Some? ==> r.value / PGSIZE in pages && SizedFor(pages[r.value / PGSIZE], n)
    {
      hide PageOk, LiveOk, ClassOk, Pool;
      ghost var h := View();
      panicked := false;
      if n == 0 {
        return None, false;
      }
      var idx := ClassIndex(n);
      if idx < 0 {
        if n <= PGSIZE - HEADER && free != [] {
          BigTakenInv(h, n);
          BigSizes(h, n);
        }
        r := AllocBig(n);
        return r, false;
      }
      var found := FindPage(idx);
      NeedsPageIff(h, n, idx);
      if found == None {
        var ok := GrowClass(idx);
        if !ok {
          return None, false;
        }
        GrownSound(h, idx);
        found := Some(classes[idx].pages[0]);
      }
      ghost var g := View();
      var a: nat;
      a, panicked := TakeFrom(found.value);
      TakenSizes(h, g, View(), found.value, idx, a);
      TakenUsed(h, g, View(), found.value);
      r := Some(a);
    }

    /** class_remove_page. */
    method RemovePage(c: nat, p: nat) returns (ghost k: nat)
      requires c < |classes| && p in classes[c].pages
      modifies this`classes
      ensures k < |old(classes)[c].pages| && old(classes)[c].pages[k] == p
      ensures classes == old(classes)[c := old(classes)[c].(pages := Without(old(classes)[c].pages, k))]
    {
      var l := classes[c].pages;
      var j := 0;
      while l[j] != p
        invariant j < |l| && p !in l[..j]
        decreases |l| - j
      {
        assert l[..j + 1] == l[..j] + [l[j]];
        assert l == l[..j + 1] + l[j + 1..];
        j := j + 1;
      }
      k := j;
      classes := classes[c := classes[c].(pages := Without(l, j))];
    }

    /** The end of kmfree for an object of a slab page: it joins the free list, and a page without objects in use goes
        back to the pool. */
    method GiveTo(a: nat) returns (panicked: bool)
      requires Inv(View()) && a in live && a / PGSIZE in pages && pages[a / PGSIZE].Slab?
      modifies this
      ensures !panicked && Inv(View()) && Pool(View()) == old(Pool(View())) && live == old(live) - {a}
      ensures forall q :: q in pages && q != a / PGSIZE ==> q in old(pages) && pages[q] == old(pages)[q]
      ensures a / PGSIZE in pages ==> pages[a / PGSIZE].Slab? && pages[a / PGSIZE].c == old(pages)[a / PGSIZE].c
    {
      hide PageOk, LiveOk, ClassOk, Pool, IsObj;
      panicked := true;
      var p := a / PGSIZE;
      ghost var h := View();
      GiveMoves(h, a);
      MovedSound(h, p, [a] + pages[p].objs, live - {a}, a);
      GivenCounts(h, p);
      var x := pages[p];
      var c := x.c;
      pages := pages[p := Slab(c, x.total, x.nfree + 1, [a] + x.objs)];
      classes := classes[c := classes[c].(nfree := classes[c].nfree + 1)];
      live := live - {a};
      ghost var g := View();
      assert g == Moved(h, p, [a] + x.objs, h.live - {a});
      GivenUsed(h, g, p);
      if x.nfree + 1 == x.total {
        GivenListed(g, p);
        ghost var k := RemovePage(c, p);
        assert CanReturn(g, p, k);
        ReturnedSound(g, p, k);
        var y := classes[c];
        if y.npages == 0 || y.ntotal < x.total || y.nfree < x.total {
          return;
        }
        classes := classes[c := y.(npages := y.npages - 1, ntotal := y.ntotal - x.total, nfree := y.nfree - x.total)];
        free := [p] + free;
        pages := pages - {p};
        assert View() == Returned(g, p, k);
      }
      forall q: nat ensures UsedPage(View(), q) {
        assert q != p ==> UsedPage(g, q);
      }
      panicked := false;
    }

    /** kmfree of an object in use: no panic, and the object and only it is out of use. */
    method Free(a: nat) returns (panicked: bool)
      requires Inv(View()) && (a == 0 || a in live)
      modifies this
      ensures !panicked && Inv(View()) && Pool(View()) == old(Pool(View()))
      ensures live == if a == 0 then old(live) else old(live) - {a}
      ensures forall b: nat :: b in live ==> SizeAt(View(), b) == SizeAt(old(View()), b)
    {
      hide PageOk, LiveOk, ClassOk, Pool, UsedPage;
      panicked := true;
      ghost var h := View();
      if a == 0 {
        ZeroNotLive(h);
        return false;
      }
      LivePage(h, a);
      var p := a / PGSIZE;
      if p !in pages {
        return;
      }
      if a < Base(p) || a >= PGSIZE * (p + 1) {
        return;
      }
      match pages[p] {
        case Big(n) =>
          if a != Base(p) {
            return;
          }
          BigGivenInv(h, p);
          free := [p] + free;
          pages := pages - {p};
          live := live - {a};
          panicked := false;
        case Slab(c, total, nfree, objs) =>
          if c >= CLASSES || Rest(a - Base(p), c) != 0 || nfree >= total {
            return;
          }
          panicked := GiveTo(a);
      }
      forall b: nat | b in live ensures SizeAt(View(), b) == SizeAt(h, b) {
        SizesKept(h, View(), p, b);
      }
    }
  }

  /** The page of an object handed out, as kmfree checks it. */
  lemma {:induction false} LivePage(h: Heap, a: nat)
    requires Sound(h) && a in h.live
    ensures a / PGSIZE in h.pages && Base(a / PGSIZE) <= a < PGSIZE * (a / PGSIZE + 1)
    ensures var x := h.pages[a / PGSIZE];
            if x.Big? then a == Base(a / PGSIZE)
            else x.c < CLASSES && Rest(a - Base(a / PGSIZE), x.c) == 0 && x.nfree < x.total
  {
    assert LiveOk(h, a) && PageOk(h, a / PGSIZE);
    LiveInside(h, a);
    var p := a / PGSIZE;
    if h.pages[p].Slab? {
      GiveMoves(h, a);
      var i: nat :| i < Count(h.pages[p].c) && a == Obj(p, h.pages[p].c, i);
      ObjInside(p, h.pages[p].c, i);
    }
  }

  lemma {:induction false} SizesKept(h: Heap, r: Heap, p: nat, b: nat)
    requires Sound(h) && Sound(r) && b in r.live && r.live <= h.live
    requires forall q :: q in r.pages && q != p ==> q in h.pages && r.pages[q] == h.pages[q]
    requires p in r.pages ==> p in h.pages && r.pages[p].Slab? && h.pages[p].Slab? && r.pages[p].c == h.pages[p].c
    ensures SizeAt(r, b) == SizeAt(h, b)
  {
    assert LiveOk(r, b);
  }

  /** No page of the class for n bytes has a free object, or there is no such class. */
  ghost predicate NeedsPage(h: Heap, n: nat) {
    n > 2048 || exists c: nat :: c < |h.classes| && ClassFor(n, c) && NoRoom(h, h.classes[c].pages)
  }

  /** The class whose objects are the smallest that have n bytes. */
  /** A page for objects of n bytes: of the smallest class with room for them, or a page of its own. */
  predicate SizedFor(x: Header, n: nat) {
    if n <= 2048 then x.Slab? && ClassFor(n, x.c) else x == Big(n)
  }

  predicate ClassFor(n: nat, c: nat) {
    c < CLASSES && n <= ClassSize(c) && (c > 0 ==> ClassSize(c - 1) < n)
  }

  ghost predicate NoRoom(h: Heap, l: seq<nat>) {
    forall p :: p in l ==> p in h.pages && h.pages[p].Slab? && h.pages[p].nfree == 0
  }

  lemma {:induction false} NeedsPageIff(h: Heap, n: nat, c: nat)
    requires c < CLASSES && |h.classes| == CLASSES && n <= ClassSize(c) && forall d: nat :: d < c ==> ClassSize(d) < n
    ensures NeedsPage(h, n) <==> NoRoom(h, h.classes[c].pages)
  {
    hide NoRoom;
    assert ClassFor(n, c);
    forall d: nat | ClassFor(n, d) ensures d == c {
      SizesGrow(c, d);
    }
  }

  lemma {:induction false} SizesGrow(c: nat, d: nat)
    requires c < CLASSES && d < CLASSES
    ensures c < d ==> ClassSize(c) <= ClassSize(d - 1)
  {
  }

  lemma {:induction false} BigSizes(h: Heap, n: nat)
    requires Inv(h) && h.free != []
    ensures SizeAt(BigTaken(h, n), Base(h.free[0])) == n
    ensures forall a: nat :: a in h.live ==> SizeAt(BigTaken(h, n), a) == SizeAt(h, a)
  {
    var p := h.free[0];
    InPage(Base(p), p);
    forall a: nat | a in h.live ensures SizeAt(BigTaken(h, n), a) == SizeAt(h, a) {
      assert LiveOk(h, a);
      assert p in h.free;
    }
  }

  /** From h, perhaps over a new page, to r, which has one object of page p more in use. */
  lemma {:induction false} TakenSizes(h: Heap, g: Heap, r: Heap, p: nat, c: nat, a: nat)
    requires Sound(h) && c < CLASSES && (g == h || (h.free != [] && g == Grown(h, c)))
    requires p in g.pages && g.pages[p].Slab? && g.pages[p].c == c && g.pages[p].objs != [] && g.pages[p].nfree > 0
             && a / PGSIZE == p
    requires r.pages == g.pages[p := g.pages[p].(nfree := g.pages[p].nfree - 1, objs := g.pages[p].objs[1..])]
    ensures SizeAt(r, a) == ClassSize(c) && forall b: nat :: b in h.live ==> SizeAt(r, b) == SizeAt(h, b)
  {
    forall b: nat | b in h.live ensures SizeAt(r, b) == SizeAt(h, b) {
      assert LiveOk(h, b);
      if g != h {
        assert h.free[0] in h.free;
      }
    }
  }

  lemma {:induction false} TakenUsed(h: Heap, g: Heap, r: Heap, p: nat)
    requires Sound(g) && (forall q: nat :: q != p ==> UsedPage(g, q))
    requires p in g.pages && g.pages[p].Slab? && g.pages[p].objs != [] && g.pages[p].nfree > 0
    requires r.pages == g.pages[p := g.pages[p].(nfree := g.pages[p].nfree - 1, objs := g.pages[p].objs[1..])]
    ensures forall q: nat :: UsedPage(r, q)
  {
    assert PageOk(g, p);
    TakeCounts(g, p);
    UsedUp(p, g);
    forall q: nat ensures UsedPage(r, q) {
      assert q != p ==> UsedPage(g, q);
    }
  }

  /** A page never has more free objects than objects. */
  lemma {:induction false} UsedUp(p: nat, g: Heap)
    requires p in g.pages && g.pages[p].Slab? && SlabOk(g, p, g.pages[p])
    ensures g.pages[p].nfree <= g.pages[p].total
  {
    var x := g.pages[p];
    if x.objs != [] {
      var l := x.objs[1..];
      assert x.objs == [x.objs[0]] + l && x.objs[0] in x.objs;
      RoomLeft(p, x.c, l, x.objs[0]);
    }
  }

  lemma {:induction false} TakenFrom(h: Heap, p: nat)
    requires CanTake(h, p)
    ensures h.pages[p].objs != [] && h.pages[p].objs[0] / PGSIZE == p
  {
    TakeCounts(h, p);
    assert PageOk(h, p);
    var a := h.pages[p].objs[0];
    assert a in h.pages[p].objs;
    var i: nat :| i < Count(h.pages[p].c) && a == Obj(p, h.pages[p].c, i);
    ObjInside(p, h.pages[p].c, i);
  }

  /** No object lies at address 0. */
  lemma {:induction false} ZeroNotLive(h: Heap)
    requires Sound(h)
    ensures 0 !in h.live
  {
    if 0 in h.live {
      LiveInside(h, 0);
    }
  }

  lemma {:induction false} GivenCounts(h: Heap, p: nat)
    requires Sound(h) && p in h.pages && h.pages[p].Slab?
    ensures h.pages[p].nfree == |h.pages[p].objs|
  {
    assert PageOk(h, p);
  }

  lemma {:induction false} GivenUsed(h: Heap, g: Heap, p: nat)
    requires Inv(h)
             && (forall q: nat :: q != p ==>
                  (q in g.pages <==> q in h.pages) && (q in g.pages ==> g.pages[q] == h.pages[q]))
    ensures forall q: nat :: q != p ==> UsedPage(g, q)
  {
    forall q: nat | q != p ensures UsedPage(g, q) {
      assert UsedPage(h, q);
    }
  }

  lemma {:induction false} GivenListed(g: Heap, p: nat)
    requires Sound(g) && p in g.pages && g.pages[p].Slab?
    ensures g.pages[p].c < CLASSES && p in g.classes[g.pages[p].c].pages
  {
    assert PageOk(g, p);
  }
}
