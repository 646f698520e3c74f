/** The slab allocator of kernel/kmalloc.c: pages cut into objects of one size, per-page free lists, per-class page
    lists and counters, over the page pool of kernel/kalloc.c. */
module SlabSpec {
  import opened Counting

  const PGSIZE := 4096
  const HEADER := 48
  const CLASSES := 7

  function ClassSize(c: nat): (r: nat)
    requires c < CLASSES
    ensures r > 0
  {
    if c == 0 then 32 else if c == 1 then 64 else if c == 2 then 128 else if c == 3 then 256
    else if c == 4 then 512 else if c == 5 then 1024 else 2048
  }

  /** i objects of class c: i * ClassSize(c), by class. */
  function Scaled(i: nat, c: nat): (r: nat)
    requires c < CLASSES
  {
    if c == 0 then 32 * i else if c == 1 then 64 * i else if c == 2 then 128 * i else if c == 3 then 256 * i
    else if c == 4 then 512 * i else if c == 5 then 1024 * i else 2048 * i
  }

  /** x % ClassSize(c), by class. */
  function Rest(x: nat, c: nat): (r: nat)
    requires c < CLASSES
  {
    if c == 0 then x % 32 else if c == 1 then x % 64 else if c == 2 then x % 128 else if c == 3 then x % 256
    else if c == 4 then x % 512 else if c == 5 then x % 1024 else x % 2048
  }

  /** How many objects of class c a page holds: (PGSIZE - HEADER) / ClassSize(c). */
  function Count(c: nat): (n: nat)
    requires c < CLASSES
    ensures n > 0 && Scaled(n, c) <= PGSIZE - HEADER < Scaled(n + 1, c)
  {
    if c == 0 then 126 else if c == 1 then 63 else if c == 2 then 31 else if c == 3 then 15
    else if c == 4 then 7 else if c == 5 then 3 else 1
  }

  function Base(p: nat): (a: nat) {
    PGSIZE * p + HEADER
  }

  /** The address of object i of a page of class c. */
  function Obj(p: nat, c: nat, i: nat): (a: nat)
    requires c < CLASSES
  {
    Base(p) + Scaled(i, c)
  }

  ghost predicate IsObj(p: nat, c: nat, a: nat)
    requires c < CLASSES
  {
    exists i: nat :: i < Count(c) && a == Obj(p, c, i)
  }

  lemma {:induction false} ObjInside(p: nat, c: nat, i: nat)
    requires c < CLASSES && i < Count(c)
    ensures Base(p) <= Obj(p, c, i) && Obj(p, c, i) + ClassSize(c) <= PGSIZE * (p + 1)
    ensures Obj(p, c, i) / PGSIZE == p && Rest(Obj(p, c, i) - Base(p), c) == 0
  {
    hide Rest;
    Fits(c, i);
    InPage(Obj(p, c, i), p);
    NoRest(i, c);
  }

  lemma {:induction false} Fits(c: nat, i: nat)
    requires c < CLASSES && i < Count(c)
    ensures Scaled(i, c) + ClassSize(c) <= PGSIZE - HEADER
  {
  }

  lemma {:induction false} InPage(a: nat, p: nat)
    requires PGSIZE * p <= a < PGSIZE * (p + 1)
    ensures a / PGSIZE == p
  {
  }

  lemma {:induction false} NoRest(i: nat, c: nat)
    requires c < CLASSES
    ensures Rest(Scaled(i, c), c) == 0
  {
    if i > 0 {
      NoRest(i - 1, c);
      RestAgain(Scaled(i - 1, c), c);
    }
  }

  lemma {:induction false} RestAgain(x: nat, c: nat)
    requires c < CLASSES
    ensures Rest(x + ClassSize(c), c) == Rest(x, c)
  {
    match c {
      case 0 => assert (x + 32) % 32 == x % 32;
      case 1 => assert (x + 64) % 64 == x % 64;
      case 2 => assert (x + 128) % 128 == x % 128;
      case 3 => assert (x + 256) % 256 == x % 256;
      case 4 => assert (x + 512) % 512 == x % 512;
      case 5 => assert (x + 1024) % 1024 == x % 1024;
      case 6 => assert (x + 2048) % 2048 == x % 2048;
    }
  }

  lemma {:induction false} ObjApart(p: nat, c: nat, i: nat, k: nat)
    requires c < CLASSES && i < k
    ensures Obj(p, c, i) + ClassSize(c) <= Obj(p, c, k)
  {
  }

  lemma {:induction false} ObjOrder(p: nat, c: nat, i: nat, k: nat)
    requires c < CLASSES
    ensures Obj(p, c, i) < Obj(p, c, k) ==> Obj(p, c, i) + ClassSize(c) <= Obj(p, c, k)
  {
    if i < k {
      ObjApart(p, c, i, k);
    }
  }

  // ---- the heap

  /** What a page in use holds: objects of class c of which nfree are free, listed in objs; or one big object. */
  datatype Header = Slab(c: nat, total: nat, nfree: nat, objs: seq<nat>) | Big(n: nat)

  datatype Class = Class(pages: seq<nat>, npages: nat, ntotal: nat, nfree: nat)

  /** The free pages, the pages in use, the classes, and the objects handed out. */
  datatype Heap = Heap(free: seq<nat>, pages: map<nat, Header>, classes: seq<Class>, live: set<nat>)

  ghost predicate SlabOk(h: Heap, p: nat, x: Header)
    requires x.Slab?
  {
    && x.c < CLASSES && x.total == Count(x.c) && x.nfree == |x.objs| && NoRepeats(x.objs)
    && (forall a :: a in x.objs ==> IsObj(p, x.c, a))
    && (forall i: nat :: i < Count(x.c) ==> (Obj(p, x.c, i) in x.objs <==> Obj(p, x.c, i) !in h.live))
    && x.c < |h.classes| && p in h.classes[x.c].pages
  }

  ghost predicate PageOk(h: Heap, p: nat) {
    p in h.pages ==>
      if h.pages[p].Slab? then SlabOk(h, p, h.pages[p]) else h.pages[p].n <= PGSIZE - HEADER && Base(p) in h.live
  }

  /** A page has an object in use. */
  ghost predicate UsedPage(h: Heap, p: nat) {
    p in h.pages && h.pages[p].Slab? ==> h.pages[p].nfree < h.pages[p].total
  }

  ghost predicate LiveOk(h: Heap, a: nat) {
    a in h.live ==>
      && a / PGSIZE in h.pages
      && match h.pages[a / PGSIZE]
         case Slab(c, _, _, _) => c < CLASSES && IsObj(a / PGSIZE, c, a)
         case Big(_) => a == Base(a / PGSIZE)
  }

  ghost function SumFree(pages: map<nat, Header>, l: seq<nat>): (n: nat) {
    if l == [] then 0
    else (if l[0] in pages && pages[l[0]].Slab? then pages[l[0]].nfree else 0) + SumFree(pages, l[1..])
  }

  ghost predicate ClassOk(h: Heap, c: nat)
    requires c < |h.classes| == CLASSES
  {
    var k := h.classes[c];
    && NoRepeats(k.pages) && (forall p :: p in k.pages ==> p in h.pages && h.pages[p].Slab? && h.pages[p].c == c)
    && k.npages == |k.pages| && k.ntotal == |k.pages| * Count(c) && k.nfree == SumFree(h.pages, k.pages)
  }

  ghost predicate PoolOk(h: Heap) {
    NoRepeats(h.free) && forall p :: p in h.free ==> p !in h.pages
  }

  /** Everything but that each slab page is in use. */
  ghost predicate Sound(h: Heap) {
    && |h.classes| == CLASSES && PoolOk(h)
    && (forall p: nat :: PageOk(h, p))
    && (forall a: nat :: LiveOk(h, a))
    && (forall c: nat :: c < CLASSES ==> ClassOk(h, c))
  }

  ghost predicate Inv(h: Heap) {
    Sound(h) && forall p: nat :: UsedPage(h, p)
  }

  /** All pages the allocator has, free or in use. */
  ghost function Pool(h: Heap): (r: set<nat>) {
    (set p | p in h.free) + h.pages.Keys
  }

  // ---- what the invariant means to users of the heap

  /** The bytes an object handed out has. */
  function SizeAt(h: Heap, a: nat): (n: nat) {
    if a / PGSIZE in h.pages then
      match h.pages[a / PGSIZE]
      case Slab(c, _, _, _) => if c < CLASSES then ClassSize(c) else 0
      case Big(n) => n
    else 0
  }

  /** An object lies in one page, past the header. */
  lemma {:induction false} LiveInside(h: Heap, a: nat)
    requires Sound(h) && a in h.live
    ensures Base(a / PGSIZE) <= a && a + SizeAt(h, a) <= PGSIZE * (a / PGSIZE + 1)
  {
    assert LiveOk(h, a) && PageOk(h, a / PGSIZE);
    var p := a / PGSIZE;
    if h.pages[p].Slab? {
      var i: nat :| i < Count(h.pages[p].c) && a == Obj(p, h.pages[p].c, i);
      ObjInside(p, h.pages[p].c, i);
    }
  }

  /** Two objects in use share no byte. */
  lemma {:induction false} LiveDisjoint(h: Heap, a: nat, b: nat)
    requires Sound(h) && a in h.live && b in h.live && a < b
    ensures a + SizeAt(h, a) <= b
  {
    LiveInside(h, a);
    LiveInside(h, b);
    assert LiveOk(h, a) && LiveOk(h, b);
    var p := a / PGSIZE;
    if b / PGSIZE == p && h.pages[p].Slab? {
      var c := h.pages[p].c;
      var i: nat :| i < Count(c) && a == Obj(p, c, i);
      var k: nat :| k < Count(c) && b == Obj(p, c, k);
      ObjOrder(p, c, i, k);
    }
  }

  /** Some object of page p is in use. */
  ghost predicate PageUsed(h: Heap, p: nat) {
    exists a: nat :: a in h.live && a / PGSIZE == p
  }

  lemma {:induction false} AllObjsFree(h: Heap, p: nat)
    requires p in h.pages && h.pages[p].Slab? && SlabOk(h, p, h.pages[p]) && !PageUsed(h, p)
    ensures h.pages[p].nfree >= h.pages[p].total
  {
    var x := h.pages[p];
    var all := seq(Count(x.c), i requires 0 <= i < Count(x.c) => Obj(p, x.c, i));
    forall i, k | 0 <= i < k < |all| ensures all[i] != all[k] {
      ObjApart(p, x.c, i, k);
    }
    forall i: nat | i < Count(x.c) ensures Obj(p, x.c, i) in x.objs {
      ObjInside(p, x.c, i);
    }
    FitsInside(all, x.objs);
  }

  /** A page is held exactly while some object of it is in use. */
  lemma {:induction false} HeldIffUsed(h: Heap, p: nat)
    requires Inv(h)
    ensures p in h.pages <==> PageUsed(h, p)
  {
    if p in h.pages && !PageUsed(h, p) {
      assert PageOk(h, p) && UsedPage(h, p);
      InPage(Base(p), p);
      if h.pages[p].Slab? {
        AllObjsFree(h, p);
      }
    }
    if PageUsed(h, p) {
      var a: nat :| a in h.live && a / PGSIZE == p;
      assert LiveOk(h, a);
    }
  }

  /** With no object in use, the free list is the whole pool. */
  lemma {:induction false} AllFreed(h: Heap)
    requires Inv(h) && h.live == {}
    ensures h.pages == map[] && (set p | p in h.free) == Pool(h)
  {
    forall p: nat ensures p !in h.pages {
      HeldIffUsed(h, p);
    }
  }

  // ---- sums of free objects

  lemma {:induction false} SumSame(a: map<nat, Header>, b: map<nat, Header>, l: seq<nat>)
    requires forall p :: p in l ==> (p in a <==> p in b) && (p in a ==> a[p] == b[p])
    ensures SumFree(a, l) == SumFree(b, l)
  {
    if l != [] {
      assert forall p :: p in l[1..] ==> p in l;
      SumSame(a, b, l[1..]);
    }
  }

  /** One page of the list has another number of free objects. */
  lemma {:induction false} SumChanged(a: map<nat, Header>, p: nat, x: Header, l: seq<nat>)
    requires NoRepeats(l) && p in l && p in a && a[p].Slab? && x.Slab?
    ensures SumFree(a[p := x], l) == SumFree(a, l) + x.nfree - a[p].nfree
  {
    var b := a[p := x];
    assert l == [l[0]] + l[1..];
    if l[0] == p {
      assert p !in l[1..];
      SumSame(a, b, l[1..]);
    } else {
      SumChanged(a, p, x, l[1..]);
    }
  }

  lemma {:induction false} SumWithout(a: map<nat, Header>, l: seq<nat>, k: nat)
    requires k < |l| && l[k] in a && a[l[k]].Slab?
    ensures SumFree(a, l) == SumFree(a, l[..k] + l[k + 1..]) + a[l[k]].nfree
  {
    if k == 0 {
      assert l[..0] + l[1..] == l[1..];
    } else {
      SumWithout(a, l[1..], k - 1);
      var r := l[..k] + l[k + 1..];
      assert r[1..] == l[1..][..k - 1] + l[1..][k..];
    }
  }

  // ---- a new page

  /** The free list grow_class builds from the first n objects: the last one first. */
  function FirstObjs(p: nat, c: nat, n: nat): (l: seq<nat>)
    requires c < CLASSES
  {
    if n == 0 then [] else [Obj(p, c, n - 1)] + FirstObjs(p, c, n - 1)
  }

  lemma {:induction false} FirstObjsHas(p: nat, c: nat, n: nat, a: nat)
    requires c < CLASSES
    ensures |FirstObjs(p, c, n)| == n && (a in FirstObjs(p, c, n) <==> exists i: nat :: i < n && a == Obj(p, c, i))
  {
    if n > 0 {
      FirstObjsHas(p, c, n - 1, a);
    }
  }

  lemma {:induction false} FirstObjsOnce(p: nat, c: nat, n: nat)
    requires c < CLASSES
    ensures NoRepeats(FirstObjs(p, c, n))
  {
    if n > 0 {
      FirstObjsOnce(p, c, n - 1);
      var a := Obj(p, c, n - 1);
      FirstObjsHas(p, c, n - 1, a);
      forall i: nat | i < n - 1 ensures Obj(p, c, i) != a {
        ObjApart(p, c, i, n - 1);
      }
    }
  }

  /** grow_class: the first free page becomes a slab page of class c. */
  function Grown(h: Heap, c: nat): (r: Heap)
    requires h.free != [] && c < CLASSES == |h.classes|
  {
    var p, k := h.free[0], h.classes[c];
    Heap(h.free[1..], h.pages[p := Slab(c, Count(c), Count(c), FirstObjs(p, c, Count(c)))],
         h.classes[c := Class([p] + k.pages, k.npages + 1, k.ntotal + Count(c), k.nfree + Count(c))], h.live)
  }

  lemma {:induction false} GrownPage(h: Heap, c: nat, q: nat)
    requires Sound(h) && h.free != [] && c < CLASSES
    ensures PageOk(Grown(h, c), q)
  {
    var r := Grown(h, c);
    var p := h.free[0];
    assert p in h.free && PageOk(h, q);
    if q == p {
      FirstObjsOnce(p, c, Count(c));
      FirstObjsHas(p, c, Count(c), 0);
      forall a | a in FirstObjs(p, c, Count(c)) ensures IsObj(p, c, a) {
        FirstObjsHas(p, c, Count(c), a);
      }
      forall i: nat | i < Count(c) ensures Obj(p, c, i) in FirstObjs(p, c, Count(c)) && Obj(p, c, i) !in h.live {
        FirstObjsHas(p, c, Count(c), Obj(p, c, i));
        ObjInside(p, c, i);
        assert LiveOk(h, Obj(p, c, i));
      }
    }
  }

  lemma {:induction false} GrownClass(h: Heap, c: nat, d: nat)
    requires Sound(h) && h.free != [] && c < CLASSES && d < CLASSES
    ensures ClassOk(Grown(h, c), d)
  {
    var r := Grown(h, c);
    var p := h.free[0];
    assert p in h.free && ClassOk(h, d);
    SumSame(h.pages, r.pages, h.classes[d].pages);
    if d == c {
      assert ([p] + h.classes[c].pages)[1..] == h.classes[c].pages;
      Distribute(|h.classes[c].pages|, Count(c));
    }
  }

  lemma {:induction false} Distribute(n: nat, k: nat)
    ensures (n + 1) * k == n * k + k
  {
  }

  /** A new page keeps everything but that each page is in use. */
  lemma {:induction false} GrownSound(h: Heap, c: nat)
    requires Inv(h) && h.free != [] && c < CLASSES
    ensures Sound(Grown(h, c)) && Pool(Grown(h, c)) == Pool(h)
    ensures forall q: nat :: q != h.free[0] ==> UsedPage(Grown(h, c), q)
  {
    hide PageOk, ClassOk, FirstObjs, IsObj;
    var r := Grown(h, c);
    assert h.free == [h.free[0]] + h.free[1..];
    assert (set x | x in h.free) == (set x | x in r.free) + {h.free[0]};
    forall q: nat ensures PageOk(r, q) {
      GrownPage(h, c, q);
    }
    forall a: nat ensures LiveOk(r, a) {
      assert LiveOk(h, a);
      assert h.free[0] in h.free;
    }
    forall d: nat | d < CLASSES ensures ClassOk(r, d) {
      GrownClass(h, c, d);
    }
    forall q: nat | q != h.free[0] ensures UsedPage(r, q) {
      assert UsedPage(h, q);
    }
  }

  // ---- taking and returning an object

  /** A page of class c has other free objects, and the heap other objects in use. */
  function Moved(h: Heap, p: nat, objs: seq<nat>, live: set<nat>): (r: Heap)
    requires p in h.pages && h.pages[p].Slab? && h.pages[p].c < |h.classes|
    requires h.classes[h.pages[p].c].nfree + |objs| >= h.pages[p].nfree
  {
    var x := h.pages[p];
    var k := h.classes[x.c];
    h.(pages := h.pages[p := Slab(x.c, x.total, |objs|, objs)],
       classes := h.classes[x.c := k.(nfree := k.nfree + |objs| - x.nfree)], live := live)
  }

  /** kmalloc: the first free object of page p is handed out. */
  ghost predicate CanTake(h: Heap, p: nat) {
    Sound(h) && p in h.pages && h.pages[p].Slab? && h.pages[p].nfree > 0
  }

  lemma {:induction false} TakeCounts(h: Heap, p: nat)
    requires CanTake(h, p)
    ensures h.pages[p].c < CLASSES && h.pages[p].objs != [] && |h.pages[p].objs| == h.pages[p].nfree
            && p in h.classes[h.pages[p].c].pages
    ensures h.classes[h.pages[p].c].nfree >= h.pages[p].nfree
  {
    assert PageOk(h, p);
    assert ClassOk(h, h.pages[p].c);
    SumAtLeast(h.pages, h.classes[h.pages[p].c].pages, p);
  }

  lemma {:induction false} SumAtLeast(a: map<nat, Header>, l: seq<nat>, p: nat)
    requires p in l && p in a && a[p].Slab?
    ensures SumFree(a, l) >= a[p].nfree
  {
    if l[0] != p {
      assert l == [l[0]] + l[1..];
      SumAtLeast(a, l[1..], p);
    }
  }

  lemma {:induction false} MovedClass(h: Heap, p: nat, objs: seq<nat>, live: set<nat>, d: nat)
    requires Sound(h) && p in h.pages && h.pages[p].Slab? && d < CLASSES
    ensures h.pages[p].c < CLASSES && h.classes[h.pages[p].c].nfree + |objs| >= h.pages[p].nfree
    ensures ClassOk(Moved(h, p, objs, live), d)
  {
    assert PageOk(h, p);
    var c := h.pages[p].c;
    assert ClassOk(h, d) && ClassOk(h, c);
    SumAtLeast(h.pages, h.classes[c].pages, p);
    var r := Moved(h, p, objs, live);
    if d == c {
      SumChanged(h.pages, p, r.pages[p], h.classes[c].pages);
    } else {
      assert p !in h.classes[d].pages;
      SumSame(h.pages, r.pages, h.classes[d].pages);
    }
  }

  /** Only the page's own object changed hands. */
  ghost predicate OneMoved(h: Heap, p: nat, objs: seq<nat>, live: set<nat>, a: nat)
    requires p in h.pages && h.pages[p].Slab? && h.pages[p].c < CLASSES
  {
    var x := h.pages[p];
    && IsObj(p, x.c, a) && NoRepeats(objs) && (a in objs <==> a !in live)
    && (forall b :: b != a ==> (b in objs <==> b in x.objs) && (b in live <==> b in h.live))
  }

  lemma {:induction false} MovedPage(h: Heap, p: nat, objs: seq<nat>, live: set<nat>, a: nat, q: nat)
    requires Sound(h) && p in h.pages && h.pages[p].Slab? && h.pages[p].c < CLASSES && OneMoved(h, p, objs, live, a)
    requires h.classes[h.pages[p].c].nfree + |objs| >= h.pages[p].nfree
    ensures PageOk(Moved(h, p, objs, live), q)
  {
    hide Count, ClassSize, Obj;
    assert PageOk(h, q);
    var r := Moved(h, p, objs, live);
    var c := h.pages[p].c;
    var i: nat :| i < Count(c) && a == Obj(p, c, i);
    ObjInside(p, c, i);
    if q in h.pages && q != p {
      if h.pages[q].Slab? {
        var d := h.pages[q].c;
        forall k: nat | k < Count(d) ensures Obj(q, d, k) != a {
          ObjInside(q, d, k);
        }
      } else {
        InPage(Base(q), q);
      }
    }
  }

  lemma {:induction false} MovedLive(h: Heap, p: nat, objs: seq<nat>, live: set<nat>, a: nat, b: nat)
    requires Sound(h) && p in h.pages && h.pages[p].Slab? && h.pages[p].c < CLASSES && OneMoved(h, p, objs, live, a)
    requires h.classes[h.pages[p].c].nfree + |objs| >= h.pages[p].nfree
    ensures LiveOk(Moved(h, p, objs, live), b)
  {
    hide Count, ClassSize, Obj;
    assert LiveOk(h, b);
    var c := h.pages[p].c;
    var i: nat :| i < Count(c) && a == Obj(p, c, i);
    ObjInside(p, c, i);
  }

  lemma {:induction false} MovedSound(h: Heap, p: nat, objs: seq<nat>, live: set<nat>, a: nat)
    requires Sound(h) && p in h.pages && h.pages[p].Slab? && h.pages[p].c < CLASSES && OneMoved(h, p, objs, live, a)
    ensures h.classes[h.pages[p].c].nfree + |objs| >= h.pages[p].nfree
    ensures Sound(Moved(h, p, objs, live)) && Pool(Moved(h, p, objs, live)) == Pool(h)
  {
    hide PageOk, LiveOk, ClassOk, OneMoved;
    MovedClass(h, p, objs, live, 0);
    var r := Moved(h, p, objs, live);
    forall q: nat ensures PageOk(r, q) {
      MovedPage(h, p, objs, live, a, q);
    }
    forall b: nat ensures LiveOk(r, b) {
      MovedLive(h, p, objs, live, a, b);
    }
    forall d: nat | d < CLASSES ensures ClassOk(r, d) {
      MovedClass(h, p, objs, live, d);
    }
    assert r.pages.Keys == h.pages.Keys;
  }

  lemma {:induction false} TakeMoves(h: Heap, p: nat)
    requires CanTake(h, p)
    ensures h.pages[p].c < CLASSES && h.pages[p].objs != [] && h.pages[p].objs[0] !in h.live
    ensures var x := h.pages[p]; OneMoved(h, p, x.objs[1..], h.live + {x.objs[0]}, x.objs[0])
  {
    assert PageOk(h, p);
    var x := h.pages[p];
    assert x.objs == [x.objs[0]] + x.objs[1..];
    assert x.objs[0] in x.objs;
    var i: nat :| i < Count(x.c) && x.objs[0] == Obj(p, x.c, i);
    assert Obj(p, x.c, i) in x.objs;
  }

  lemma {:induction false} GiveMoves(h: Heap, a: nat)
    requires Sound(h) && a in h.live && a / PGSIZE in h.pages && h.pages[a / PGSIZE].Slab?
    ensures h.pages[a / PGSIZE].c < CLASSES && OneMoved(h, a / PGSIZE, [a] + h.pages[a / PGSIZE].objs, h.live - {a}, a)
    ensures h.pages[a / PGSIZE].nfree < h.pages[a / PGSIZE].total
  {
    var p := a / PGSIZE;
    assert PageOk(h, p) && LiveOk(h, a);
    var x := h.pages[p];
    var i: nat :| i < Count(x.c) && a == Obj(p, x.c, i);
    assert Obj(p, x.c, i) !in x.objs;
    RoomLeft(p, x.c, x.objs, a);
  }

  /** A free list without some object of its page is shorter than the page has objects. */
  lemma {:induction false} RoomLeft(p: nat, c: nat, objs: seq<nat>, a: nat)
    requires c < CLASSES && NoRepeats(objs) && (forall b :: b in objs ==> IsObj(p, c, b)) && IsObj(p, c, a)
             && a !in objs
    ensures |objs| < Count(c)
  {
    hide Obj, Count;
    var all := seq(Count(c), i requires 0 <= i < Count(c) => Obj(p, c, i));
    forall b | b in [a] + objs ensures b in all {
      var i: nat :| i < Count(c) && b == Obj(p, c, i);
      assert all[i] == b;
    }
    FitsInside([a] + objs, all);
  }

  // ---- giving a page back

  function Without(l: seq<nat>, k: nat): (r: seq<nat>)
    requires k < |l|
  {
    l[..k] + l[k + 1..]
  }

  /** A slab page leaves its class and goes to the free list. */
  function Returned(h: Heap, p: nat, k: nat): (r: Heap)
    requires p in h.pages && h.pages[p].Slab? && h.pages[p].c < |h.classes| && k < |h.classes[h.pages[p].c].pages|
    requires var (x, y) := (h.pages[p], h.classes[h.pages[p].c]);
             y.npages > 0 && y.ntotal >= x.total && y.nfree >= x.total
  {
    var x := h.pages[p];
    var y := h.classes[x.c];
    Heap([p] + h.free, h.pages - {p},
         h.classes[x.c := Class(Without(y.pages, k), y.npages - 1, y.ntotal - x.total, y.nfree - x.total)], h.live)
  }

  /** All objects of page p are free, and it is page k of its class. */
  ghost predicate CanReturn(h: Heap, p: nat, k: nat) {
    && Sound(h) && p in h.pages && h.pages[p].Slab? && h.pages[p].c < CLASSES && h.pages[p].nfree == h.pages[p].total
    && k < |h.classes[h.pages[p].c].pages| && h.classes[h.pages[p].c].pages[k] == p
  }

  lemma {:induction false} ReturnCounts(h: Heap, p: nat, k: nat)
    requires CanReturn(h, p, k)
    ensures var (x, y) := (h.pages[p], h.classes[h.pages[p].c]);
            y.npages > 0 && y.ntotal >= x.total && y.nfree >= x.total
  {
    assert PageOk(h, p);
    var c := h.pages[p].c;
    assert ClassOk(h, c);
    SumAtLeast(h.pages, h.classes[c].pages, p);
    Distribute(|h.classes[c].pages| - 1, Count(c));
  }

  lemma {:induction false} WithoutHas(l: seq<nat>, k: nat, q: nat)
    requires NoRepeats(l) && k < |l|
    ensures NoRepeats(Without(l, k)) && (q in Without(l, k) <==> q in l && q != l[k])
  {
    assert l == l[..k] + [l[k]] + l[k + 1..];
  }

  lemma {:induction false} ReturnedClass(h: Heap, p: nat, k: nat, d: nat)
    requires CanReturn(h, p, k) && d < CLASSES
    requires var (x, y) := (h.pages[p], h.classes[h.pages[p].c]);
             y.npages > 0 && y.ntotal >= x.total && y.nfree >= x.total
    ensures ClassOk(Returned(h, p, k), d)
  {
    assert PageOk(h, p);
    var c := h.pages[p].c;
    assert ClassOk(h, d) && ClassOk(h, c);
    var r := Returned(h, p, k);
    if d == c {
      var l := h.classes[c].pages;
      forall q | q in Without(l, k) ensures q in l && q != p {
        WithoutHas(l, k, q);
      }
      WithoutHas(l, k, p);
      SumWithout(h.pages, l, k);
      SumSame(h.pages, r.pages, Without(l, k));
      Distribute(|l| - 1, Count(c));
    } else {
      assert p !in h.classes[d].pages;
      SumSame(h.pages, r.pages, h.classes[d].pages);
    }
  }

  lemma {:induction false} ReturnedPage(h: Heap, p: nat, k: nat, q: nat)
    requires CanReturn(h, p, k)
    requires var (x, y) := (h.pages[p], h.classes[h.pages[p].c]);
             y.npages > 0 && y.ntotal >= x.total && y.nfree >= x.total
    ensures PageOk(Returned(h, p, k), q)
  {
    assert PageOk(h, q) && PageOk(h, p);
    var c := h.pages[p].c;
    assert ClassOk(h, c);
    WithoutHas(h.classes[c].pages, k, q);
  }

  lemma {:induction false} ReturnedLive(h: Heap, p: nat, k: nat, a: nat)
    requires CanReturn(h, p, k)
    requires var (x, y) := (h.pages[p], h.classes[h.pages[p].c]);
             y.npages > 0 && y.ntotal >= x.total && y.nfree >= x.total
    ensures LiveOk(Returned(h, p, k), a)
  {
    assert LiveOk(h, a) && PageOk(h, p);
    if a in h.live && a / PGSIZE == p {
      GiveMoves(h, a);
    }
  }

  /** A page whose objects are all free goes back to the pool. */
  lemma {:induction false} ReturnedSound(h: Heap, p: nat, k: nat)
    requires CanReturn(h, p, k)
    ensures var (x, y) := (h.pages[p], h.classes[h.pages[p].c]);
            y.npages > 0 && y.ntotal >= x.total && y.nfree >= x.total
    ensures Sound(Returned(h, p, k)) && Pool(Returned(h, p, k)) == Pool(h)
  {
    hide PageOk, LiveOk, ClassOk;
    ReturnCounts(h, p, k);
    var r := Returned(h, p, k);
    forall q: nat ensures PageOk(r, q) {
      ReturnedPage(h, p, k, q);
    }
    forall a: nat ensures LiveOk(r, a) {
      ReturnedLive(h, p, k, a);
    }
    forall d: nat | d < CLASSES ensures ClassOk(r, d) {
      ReturnedClass(h, p, k, d);
    }
    assert p !in h.free;
    assert (set x | x in [p] + h.free) == (set x | x in h.free) + {p};
  }

  // ---- big objects

  /** alloc_big: a page of its own for one object. */
  function BigTaken(h: Heap, n: nat): (r: Heap)
    requires h.free != []
  {
    h.(free := h.free[1..], pages := h.pages[h.free[0] := Big(n)], live := h.live + {Base(h.free[0])})
  }

  lemma {:induction false} BigTakenPage(h: Heap, n: nat, q: nat)
    requires Sound(h) && h.free != [] && n <= PGSIZE - HEADER
    ensures PageOk(BigTaken(h, n), q) && Base(h.free[0]) !in h.live
  {
    hide Count, ClassSize, Obj;
    var p := h.free[0];
    assert p in h.free && PageOk(h, q) && LiveOk(h, Base(p));
    InPage(Base(p), p);
    if q in h.pages && h.pages[q].Slab? {
      var d := h.pages[q].c;
      forall k: nat | k < Count(d) ensures Obj(q, d, k) != Base(p) {
        ObjInside(q, d, k);
      }
    }
  }

  lemma {:induction false} BigTakenInv(h: Heap, n: nat)
    requires Inv(h) && h.free != [] && n <= PGSIZE - HEADER
    ensures Inv(BigTaken(h, n)) && Pool(BigTaken(h, n)) == Pool(h) && Base(h.free[0]) !in h.live
  {
    hide PageOk;
    var r := BigTaken(h, n);
    var p := h.free[0];
    assert p in h.free;
    assert h.free == [p] + h.free[1..];
    assert (set x | x in h.free) == (set x | x in r.free) + {p};
    BigTakenPage(h, n, 0);
    forall q: nat ensures PageOk(r, q) && UsedPage(r, q) {
      BigTakenPage(h, n, q);
      BigTakenUsed(h, n, q);
    }
    forall a: nat ensures LiveOk(r, a) {
      BigTakenLive(h, n, a);
    }
    forall d: nat | d < CLASSES ensures ClassOk(r, d) {
      BigTakenClass(h, n, d);
    }
  }

  lemma {:induction false} BigTakenUsed(h: Heap, n: nat, q: nat)
    requires Inv(h) && h.free != [] && n <= PGSIZE - HEADER
    ensures UsedPage(BigTaken(h, n), q)
  {
    hide PageOk, LiveOk, ClassOk;
    InPage(Base(h.free[0]), h.free[0]);
    assert UsedPage(h, q);
  }

  lemma {:induction false} BigTakenLive(h: Heap, n: nat, a: nat)
    requires Inv(h) && h.free != [] && n <= PGSIZE - HEADER
    ensures LiveOk(BigTaken(h, n), a)
  {
    hide PageOk, ClassOk, UsedPage;
    assert h.free[0] in h.free;
    InPage(Base(h.free[0]), h.free[0]);
    assert LiveOk(h, a);
  }

  lemma {:induction false} BigTakenClass(h: Heap, n: nat, d: nat)
    requires Inv(h) && h.free != [] && n <= PGSIZE - HEADER && d < CLASSES
    ensures ClassOk(BigTaken(h, n), d)
  {
    hide PageOk, LiveOk, UsedPage;
    assert h.free[0] in h.free;
    assert ClassOk(h, d);
    SumSame(h.pages, BigTaken(h, n).pages, h.classes[d].pages);
  }

  function BigGiven(h: Heap, p: nat): (r: Heap) {
    h.(free := [p] + h.free, pages := h.pages - {p}, live := h.live - {Base(p)})
  }

  lemma {:induction false} BigGivenPage(h: Heap, p: nat, q: nat)
    requires Sound(h) && p in h.pages && h.pages[p].Big?
    ensures PageOk(BigGiven(h, p), q)
  {
    hide Count, ClassSize, Obj;
    assert PageOk(h, q);
    InPage(Base(p), p);
    if q in h.pages && q != p && h.pages[q].Slab? {
      var d := h.pages[q].c;
      forall k: nat | k < Count(d) ensures Obj(q, d, k) != Base(p) {
        ObjInside(q, d, k);
      }
    }
  }

  lemma {:induction false} BigGivenInv(h: Heap, p: nat)
    requires Inv(h) && p in h.pages && h.pages[p].Big?
    ensures Inv(BigGiven(h, p)) && Pool(BigGiven(h, p)) == Pool(h)
  {
    hide PageOk;
    var r := BigGiven(h, p);
    assert p !in h.free;
    assert (set x | x in [p] + h.free) == (set x | x in h.free) + {p};
    forall q: nat ensures PageOk(r, q) && UsedPage(r, q) {
      BigGivenPage(h, p, q);
      assert UsedPage(h, q);
    }
    forall a: nat ensures LiveOk(r, a) {
      assert LiveOk(h, a);
    }
    forall d: nat | d < CLASSES ensures ClassOk(r, d) {
      assert ClassOk(h, d);
      SumSame(h.pages, r.pages, h.classes[d].pages);
    }
  }
}
