/** user/umalloc.c: the circular free list behind malloc and free, against HeapSpec. */
module Umalloc {
  import opened Blocks
  import opened Counting
  import opened HeapSpec

  const HEADER := 16      // sizeof(Header)
  const MIN_UNITS := 4096 // the least morecore asks for
  const INT_MAX := 0x7fff_ffff

  /** The units of a request hold a header and the bytes asked for, and no unit more than that takes. */
  lemma {:induction false} UnitsHold(nbytes: nat)
    ensures HEADER + nbytes <= Units(nbytes) * HEADER < HEADER + nbytes + HEADER
  {
  }

  /** The units a request of nbytes takes, its header included. */
  function Units(nbytes: nat): (n: nat) {
    (nbytes + HEADER - 1) / HEADER + 1
  }

  function CoreUnits(n: nat): (nu: nat)
    ensures nu >= n && nu >= 4096 && (nu == n || nu == 4096)
  {
    if n < MIN_UNITS then MIN_UNITS else n
  }

  /** The conversion of an unsigned long to sbrk's int parameter. */
  function ToInt(x: nat): (i: int) {
    var w := x % 0x1_0000_0000;
    if w <= INT_MAX then w else w - 0x1_0000_0000
  }

  /** morecore asks sbrk for as many bytes as it then uses exactly for requests of at most 2^31 - 32 bytes, and never
      for more. */
  lemma {:induction false} SbrkAsksEnough(nbytes: Word)
    ensures ToInt(CoreUnits(Units(nbytes)) * HEADER) <= CoreUnits(Units(nbytes)) * HEADER
    ensures ToInt(CoreUnits(Units(nbytes)) * HEADER) == CoreUnits(Units(nbytes)) * HEADER <==> nbytes <= 0x7fff_ffe0
  {
  }

  // ---- the ring

  function Succ(nodes: seq<nat>, k: nat): (a: nat)
    requires k < |nodes|
  {
    if k + 1 == |nodes| then nodes[0] else nodes[k + 1]
  }

  function After1(k: nat, n: nat): (m: nat) {
    if k + 1 == n then 0 else k + 1
  }

  ghost predicate Circular(ptr: map<nat, nat>, nodes: seq<nat>) {
    forall k :: 0 <= k < |nodes| ==> nodes[k] in ptr && ptr[nodes[k]] == Succ(nodes, k)
  }

  lemma {:induction false} SpliceAt(nodes: seq<nat>, k: nat, d: nat, mid: seq<nat>, i: nat)
    requires k + d < |nodes| && i < |nodes| - d + |mid|
    ensures |Splice(nodes, k, d, mid)| == |nodes| - d + |mid|
    ensures Splice(nodes, k, d, mid)[i] ==
            if i <= k then nodes[i] else if i <= k + |mid| then mid[i - k - 1] else nodes[i - |mid| + d]
  {
  }

  /** Which node follows the i-th one of a spliced list. */
  lemma {:induction false} SpliceSucc(nodes: seq<nat>, k: nat, d: nat, mid: seq<nat>, i: nat)
    requires d <= 1 && k + d < |nodes| && |mid| <= 1 && i < |nodes| - d + |mid|
    ensures var r := Splice(nodes, k, d, mid);
            && |r| == |nodes| - d + |mid|
            && (i < k ==> r[i] == nodes[i] && Succ(r, i) == Succ(nodes, i))
            && (i == k ==> r[i] == nodes[k] && Succ(r, i) == if mid == [] then Succ(nodes, k + d) else mid[0])
            && (k < i <= k + |mid| ==> r[i] == mid[0] && Succ(r, i) == Succ(nodes, k + d))
            && (k + |mid| < i ==> r[i] == nodes[i - |mid| + d] && Succ(r, i) == Succ(nodes, i - |mid| + d))
  {
    hide Splice;
    SpliceAt(nodes, k, d, mid, 0);
    SpliceAt(nodes, k, d, mid, i);
    if i + 1 < |nodes| - d + |mid| {
      SpliceAt(nodes, k, d, mid, i + 1);
    }
  }

  /** Linking bp after nodes[k], past d of its successors. */
  lemma {:induction false} CircularInsert(ptr: map<nat, nat>, nodes: seq<nat>, k: nat, d: nat, bp: nat)
    requires Circular(ptr, nodes) && NoRepeats(nodes) && d <= 1 && k + d < |nodes| && bp !in nodes
    ensures Circular(ptr[bp := Succ(nodes, k + d)][nodes[k] := bp], Splice(nodes, k, d, [bp]))
  {
    hide Splice, Succ;
    var p := ptr[bp := Succ(nodes, k + d)][nodes[k] := bp];
    var r := Splice(nodes, k, d, [bp]);
    SpliceSucc(nodes, k, d, [bp], 0);
    forall i | 0 <= i < |r| ensures r[i] in p && p[r[i]] == Succ(r, i) {
      SpliceSucc(nodes, k, d, [bp], i);
    }
  }

  /** Linking nodes[k] past d of its successors. */
  lemma {:induction false} CircularSkip(ptr: map<nat, nat>, nodes: seq<nat>, k: nat, d: nat)
    requires Circular(ptr, nodes) && NoRepeats(nodes) && d <= 1 && k + d < |nodes|
    ensures Circular(ptr[nodes[k] := Succ(nodes, k + d)], Splice(nodes, k, d, []))
  {
    hide Splice, Succ;
    var p := ptr[nodes[k] := Succ(nodes, k + d)];
    var r := Splice(nodes, k, d, []);
    SpliceSucc(nodes, k, d, [], 0);
    forall i | 0 <= i < |r| ensures r[i] in p && p[r[i]] == Succ(r, i) {
      SpliceSucc(nodes, k, d, [], i);
    }
  }

  lemma {:induction false} CircularFrame(ptr: map<nat, nat>, nodes: seq<nat>, bp: nat, x: nat)
    requires Circular(ptr, nodes) && bp !in nodes
    ensures Circular(ptr[bp := x], nodes)
  {
  }

  lemma {:induction false} ListedDistinct(h: Heap, base: nat)
    requires Listed(h, base)
    ensures NoRepeats(h.nodes)
  {
    forall i, j | 0 <= i < j < |h.nodes| ensures h.nodes[i] != h.nodes[j] {
      assert h.nodes[i] + h.size[h.nodes[i]] < h.nodes[j];
    }
  }

  /** Steps from index i round the ring of n to index t. */
  function Dist(i: nat, t: nat, n: nat): (d: nat)
    requires i < n && t < n
  {
    if i <= t then t - i else n - i + t
  }

  /** j lies strictly between f and i going round the ring. */
  predicate InArc(f: nat, j: nat, i: nat) {
    if f < i then f < j < i else j > f || j < i
  }

  /** Every block above the base has its place. */
  lemma {:induction false} PlaceExists(h: Heap, base: nat, bp: nat) returns (t: nat)
    requires Listed(h, base) && base < bp && bp !in h.nodes
    ensures After(h, t, bp)
  {
    t := 0;
    while t + 1 < |h.nodes| && h.nodes[t + 1] < bp
      invariant t < |h.nodes| && h.nodes[t] < bp
    {
      t := t + 1;
    }
  }

  /** free leaves a free block at least as large as the one given back. */
  lemma {:induction false} FreedHasRoom(h: Heap, base: nat, k: nat, bp: nat) returns (t: nat)
    requires Valid(h, base) && Live(h, bp) && After(h, k, bp)
    ensures var r := Freed(h, k, bp);
            t < |r.nodes| && r.nodes[t] in r.size && r.size[r.nodes[t]] >= h.size[bp]
  {
    var g := if Joins(h, k, bp) then AbsorbNext(h, k, bp) else h;
    t := if h.nodes[k] + g.size[h.nodes[k]] == bp then k else k + 1;
  }

  /** Where the search of free stops is the place of the block. */
  lemma {:induction false} Stop(h: Heap, base: nat, ptr: map<nat, nat>, k: nat, bp: nat)
    requires Valid(h, base) && Circular(ptr, h.nodes) && k < |h.nodes| && Live(h, bp)
    ensures h.nodes[k] in ptr
    ensures var (p, q) := (h.nodes[k], ptr[h.nodes[k]]);
            (p < bp < q) || (p >= q && (bp > p || bp < q)) ==> After(h, k, bp)
  {
    hide Tiled;
    assert k + 1 < |h.nodes| ==> h.nodes[k] + h.size[h.nodes[k]] < h.nodes[k + 1];
    assert 0 < k ==> h.nodes[0] + h.size[h.nodes[0]] < h.nodes[k];
  }

  /** Where it does not stop it comes nearer to the place t. */
  lemma {:induction false} OneOn(h: Heap, base: nat, ptr: map<nat, nat>, k: nat, t: nat, bp: nat)
    requires Valid(h, base) && Circular(ptr, h.nodes) && k < |h.nodes| && Live(h, bp) && After(h, t, bp)
             && h.nodes[k] in ptr
    requires var (p, q) := (h.nodes[k], ptr[h.nodes[k]]); !(p < bp < q) && !(p >= q && (bp > p || bp < q))
    ensures var i := After1(k, |h.nodes|);
            i < |h.nodes| && h.nodes[i] == ptr[h.nodes[k]] && ptr[h.nodes[k]] in ptr
            && Dist(i, t, |h.nodes|) < Dist(k, t, |h.nodes|)
  {
    hide Tiled;
    assert k + 1 < |h.nodes| ==> h.nodes[k] + h.size[h.nodes[k]] < h.nodes[k + 1];
    assert 0 < k ==> h.nodes[0] + h.size[h.nodes[0]] < h.nodes[k];
    SamePlace(h, base, k, t, bp);
  }

  class Allocator {
    const base: nat
    var freep: Option<nat>
    var ptr: map<nat, nat>
    var size: map<nat, nat>
    ghost var nodes: seq<nat>
    ghost var blocks: set<nat>
    ghost var own: map<nat, nat>

    ghost function Abs(): (h: Heap)
      reads this
    {
      Heap(nodes, blocks, size, own)
    }

    ghost predicate Ok()
      reads this
    {
      && Valid(Abs(), base)
      && (freep.Some? ==> freep.value in nodes && Circular(ptr, nodes))
      && (freep.None? ==> nodes == [base] && blocks == {base})
    }

    /** The program's data before the first call: a zeroed base and no free list. */
    constructor (base: nat)
      ensures Ok() && own == map[] && this.base == base
    {
      this.base := base;
      freep := None;
      ptr, size := map[], map[base := 0];
      nodes, blocks, own := [base], {base}, map[];
    }

    /** The search loop of free: the free block after which bp belongs. */
    method FindPlace(bp: nat) returns (p: nat, ghost k: nat)
      requires Ok() && freep.Some? && Live(Abs(), bp)
      ensures After(Abs(), k, bp) && p == nodes[k]
    {
      ghost var t := PlaceExists(Abs(), base, bp);
      hide Valid, Live, Dist, After1;
      p := freep.value;
      k := IndexOf(nodes, p);
      Stop(Abs(), base, ptr, k, bp);
      while !(bp > p && bp < ptr[p])
        invariant k < |nodes| && p == nodes[k] && p in ptr
        decreases Dist(k, t, |nodes|)
      {
        Stop(Abs(), base, ptr, k, bp);
        if p >= ptr[p] && (bp > p || bp < ptr[p]) {
          return;
        }
        OneOn(Abs(), base, ptr, k, t, bp);
        p := ptr[p];
        k := After1(k, |nodes|);
      }
      Stop(Abs(), base, ptr, k, bp);
    }

    /** The assignments of free once the place p of bp is known; x is where bp will point. */
    method Relink(p: nat, bp: nat, ghost joins: bool, ghost x: nat)
      requires p in ptr && p in size && bp in size && p != bp && ptr[p] != bp
      requires joins <==> bp + size[bp] == ptr[p]
      requires if joins then ptr[p] in ptr && ptr[p] in size && x == ptr[ptr[p]] else x == ptr[p]
      modifies this`ptr, this`size
      ensures size == RelinkedSize(old(size), old(ptr)[p], p, bp)
      ensures ptr == old(ptr)[bp := x][p := if p + old(size)[p] == bp then x else bp]
    {
      var q := ptr[p];
      if bp + size[bp] == q {
        size := size[bp := size[bp] + size[q]];
        ptr := ptr[bp := ptr[q]];
      } else {
        ptr := ptr[bp := q];
      }
      if p + size[p] == bp {
        size := size[p := size[p] + size[bp]];
        ptr := ptr[p := ptr[bp]];
      } else {
        ptr := ptr[p := bp];
      }
    }

    /** free: the block is handed back and coalesced with the free blocks it touches. */
    method Free(bp: nat) returns (ghost k: nat)
      requires Ok() && freep.Some? && Live(Abs(), bp)
      modifies this
      ensures Ok() && After(old(Abs()), k, bp) && freep == Some(old(nodes)[k]) && Abs() == Freed(old(Abs()), k, bp)
      ensures own.Keys == old(own).Keys && OthersKept(Abs(), old(Abs()), bp) && !Live(Abs(), bp)
    {
      hide Circular, Valid, Live, Succ, FreedNodes, OthersKept, Freed, After, RelinkedSize;
      ghost var h := Abs();
      var p;
      p, k := FindPlace(bp);
      FreedValid(h, base, k, bp);
      FreedLinks(h, base, ptr, k, bp);
      Relink(p, bp, Joins(h, k, bp), Succ(h.nodes, if Joins(h, k, bp) then k + 1 else k));
      freep := Some(p);
      nodes, blocks, own := Freed(h, k, bp).nodes, Freed(h, k, bp).blocks, Freed(h, k, bp).own;
    }

    /** What a successful sbrk promises: the region is nobody's yet and lies above the program's data. */
    ghost predicate FreshRegion(r: nat, nu: nat)
      reads this
    {
      base < r && forall u: nat :: Within(u, r, nu) ==> u !in own
    }

    /** morecore: the new region becomes a block and is freed at once. */
    method MoreCore(n: nat, sbrk: Option<nat>) returns (ok: bool)
      requires Ok() && freep.Some? && n > 0
      requires sbrk.Some? ==> FreshRegion(sbrk.value, CoreUnits(n))
      modifies this
      ensures ok <==> sbrk.Some?
      ensures !ok ==> unchanged(this)
      ensures ok ==> Ok() && freep.Some? && (exists t :: 0 <= t < |nodes| && nodes[t] in size && size[nodes[t]] >= n)
      ensures ok ==> SameLive(Abs(), old(Abs()))
      ensures ok ==> forall u: nat :: u in own <==> u in old(own) || Within(u, sbrk.value, CoreUnits(n))
    {
      hide Valid, Live, Circular, OthersKept, SameLive, Grow, Freed, After;
      var nu := CoreUnits(n);
      if sbrk.None? {
        return false;
      }
      var hp := sbrk.value;
      ghost var h := Abs();
      GrowKeeps(h, base, hp, nu);
      size := size[hp := nu];
      blocks, own := Grow(h, hp, nu).blocks, Grow(h, hp, nu).own;
      ghost var g := Abs();
      assert g == Grow(h, hp, nu);
      ghost var k := Free(hp);
      ghost var t := FreedHasRoom(g, base, k, hp);
      SameLiveAfter(Abs(), g, h, hp);
      ok := true;
    }

    /** The assignments of malloc once p, after prevp on the list, is known to be large enough. */
    method TakeFrom(prevp: nat, p: nat, n: nat, ghost i: nat) returns (q: nat)
      requires Ok() && freep.Some? && 1 <= i < |nodes| && nodes[i] == p && nodes[i - 1] == prevp
      requires 0 < n && p in size && n <= size[p]
      modifies this
      ensures Ok() && freep == Some(prevp)
      ensures Abs() == Taken(old(Abs()), i, n) && q == TakenAt(old(Abs()), i, n)
      ensures own.Keys == old(own).Keys && OthersKept(Abs(), old(Abs()), q)
      ensures !Live(old(Abs()), q) && Live(Abs(), q) && q in size && size[q] == n
    {
      hide Valid, Live, OthersKept, Circular, Taken;
      ghost var h := Abs();
      TakenValid(h, base, i, n);
      TakenLinks(h, base, ptr, i, n);
      q := p;
      if size[p] == n {
        ptr := ptr[prevp := ptr[p]];
      } else {
        size := size[p := size[p] - n];
        q := p + size[p];
        size := size[q := n];
      }
      freep := Some(prevp);
      nodes, blocks, own := Taken(h, i, n).nodes, Taken(h, i, n).blocks, Taken(h, i, n).own;
    }

    /** The first call of malloc makes the base a list of one. */
    method Start()
      requires Ok()
      modifies this`ptr, this`freep
      ensures Ok() && freep == if old(freep).Some? then old(freep) else Some(base)
    {
      if freep.None? {
        ptr := ptr[base := base];
        freep := Some(base);
        Alone(ptr, base);
      }
    }

    /** The call of morecore in malloc, after which the block at index t of the list is large enough. */
    method Refill(n: nat, sbrk: Option<nat>) returns (ok: bool, ghost t: nat, ghost f: nat)
      requires Ok() && freep.Some? && n > 0
      requires sbrk.Some? ==> FreshRegion(sbrk.value, CoreUnits(n))
      modifies this
      ensures ok <==> sbrk.Some?
      ensures !ok ==> unchanged(this)
      ensures ok ==> Ok() && freep.Some? && SameLive(Abs(), old(Abs()))
      ensures ok ==> UnitsKept(old(Abs()), Abs(), sbrk, CoreUnits(n))
      ensures ok ==> t < |nodes| && nodes[t] in size && size[nodes[t]] >= n && f < |nodes| && nodes[f] == freep.value
    {
      hide Valid, Live, OthersKept, SameLive, UnitsKept, Circular;
      t, f := 0, 0;
      ok := MoreCore(n, sbrk);
      if ok {
        GrewBy(old(Abs()), Abs(), sbrk, CoreUnits(n));
        t :| 0 <= t < |nodes| && nodes[t] in size && size[nodes[t]] >= n;
        f := IndexOf(nodes, freep.value);
      }
    }

    /** The end of malloc, with a large enough block found; h is the heap that malloc started from. */
    method TakeFound(prevp: nat, p: nat, n: nat, ghost i: nat, ghost h: Heap, ghost sbrk: Option<nat>) returns (q: nat)
      requires Ok() && freep.Some? && Pos(nodes, i, p, prevp) && 0 < n && p in size && n <= size[p]
      requires SameLive(Abs(), h) && UnitsKept(h, Abs(), sbrk, CoreUnits(n))
      modifies this
      ensures Ok() && freep == Some(prevp) && HandedOut(h, Abs(), q, n) && UnitsKept(h, Abs(), sbrk, CoreUnits(n))
      ensures TookAt(old(Abs()), Abs(), i, n, q, prevp)
    {
      hide Valid, Live, OthersKept, SameLive, HandedOut, UnitsKept, Taken, Circular;
      NodesSized(Abs(), base);
      ghost var g := Abs();
      q := TakeFrom(prevp, p, n, i);
      HandedOutThrough(h, g, Abs(), q, n, sbrk, CoreUnits(n));
    }

    /** The loop of malloc: once round the list from freep, then once more if morecore was asked. */
    method Search(n: nat, sbrk: Option<nat>) returns (found: bool, prevp: nat, p: nat, ghost i: nat, ghost asked: bool)
      requires Ok() && freep.Some? && n > 0 && (sbrk.Some? ==> FreshRegion(sbrk.value, CoreUnits(n)))
      modifies this
      ensures Ok() && freep.Some? && SameLive(Abs(), old(Abs())) && UnitsKept(old(Abs()), Abs(), sbrk, CoreUnits(n))
      ensures found ==> Pos(nodes, i, p, prevp) && p in size && n <= size[p]
      ensures asked ==> NoneFits(old(Abs()), n) && found && sbrk.Some?
      ensures !asked ==> Abs() == old(Abs())
      ensures found && !asked ==> !NoneFits(Abs(), n) && FirstFit(Abs(), old(freep).value, i, n)
      ensures !found ==> sbrk.None? && NoneFits(Abs(), n)
    {
      hide Valid, Live, OthersKept, SameLive, UnitsKept, NoneFits, Small, ReachesFirst, Circular, FirstFit;
      ghost var h := Abs();
      SameSelf(h, base, sbrk, CoreUnits(n));
      NodesSized(h, base);
      ghost var f: nat := IndexOf(nodes, freep.value);
      ghost var t: nat := f;
      asked := false;
      prevp := freep.value;
      NextPos(ptr, nodes, f, prevp);
      p := ptr[prevp];
      i := After1(f, |nodes|);
      NoneSeen(h, f, n);
      while size[p] < n
        invariant Ok() && freep.Some? && Pos(nodes, i, p, prevp) && p in size && p in ptr
        invariant f < |nodes| && t < |nodes| && nodes[f] == freep.value
        invariant SameLive(Abs(), h) && UnitsKept(h, Abs(), sbrk, CoreUnits(n))
        invariant if asked then nodes[t] in size && size[nodes[t]] >= n && ReachesFirst(i, t, f, |nodes|)
                  else Abs() == h && t == f && Small(h, f, i, n) && freep == old(freep)
        invariant asked ==> NoneFits(h, n) && sbrk.Some?
        decreases !asked, Dist(i, t, |nodes|)
      {
        NodesSized(Abs(), base);
        if p == freep.value {
          SameIndex(nodes, i, f);
          if asked {
            ReachedFirst(i, t, f, |nodes|);
          }
          AllSmall(h, f, n);
          var ok;
          ok, t, f := Refill(n, sbrk);
          if !ok {
            found := false;
            return;
          }
          p := freep.value;
          asked := true;
          i := f;
          StartRound(t, f, |nodes|);
        } else {
          if asked {
            NextReaches(i, t, f, |nodes|);
          } else {
            SmallStep(h, f, i, n);
          }
        }
        NodesSized(Abs(), base);
        NextPos(ptr, nodes, i, p);
        prevp := p;
        p := ptr[p];
        i := After1(i, |nodes|);
      }
      if !asked {
        FitFound(h, f, i, n);
      }
      found := true;
    }

    /** malloc. sbrk is what the system answers to the request for CoreUnits(Units(nbytes)) units, if that request gets
        through sbrk's int as SbrkAsksEnough says; morecore is called at most once. The result is the address after the
        header of a block that overlaps nothing. */
    method Malloc(nbytes: nat, sbrk: Option<nat>) returns (r: Option<nat>)
      requires Ok() && nbytes < WORD_LIMIT
      requires sbrk.Some? ==> FreshRegion(sbrk.value, CoreUnits(Units(nbytes)))
      modifies this
      ensures Ok() && freep.Some?
      ensures r.Some? ==> r.value > 0 && HandedOut(old(Abs()), Abs(), r.value - 1, Units(nbytes))
      ensures r.None? ==> sbrk.None? && Abs() == old(Abs()) && NoneFits(Abs(), Units(nbytes))
      ensures UnitsKept(old(Abs()), Abs(), sbrk, CoreUnits(Units(nbytes)))
      ensures NoneFits(old(Abs()), Units(nbytes)) ==> (r.Some? <==> sbrk.Some?)
      ensures !NoneFits(old(Abs()), Units(nbytes)) ==>
                r.Some? && old(freep).Some? && freep.Some?
                && exists k :: FirstFit(old(Abs()), old(freep).value, k, Units(nbytes))
                               && TookAt(old(Abs()), Abs(), k, Units(nbytes), r.value - 1, freep.value)
    {
      hide Valid, Live, OthersKept, SameLive, HandedOut, UnitsKept, NoneFits, Taken, Circular, FirstFit, TookAt, Pos;
      var n := Units(nbytes);
      BaseAlone(Abs(), base, n, freep.None?);
      Start();
      ghost var h := Abs();
      var found, prevp, p, i, asked := Search(n, sbrk);
      if !found {
        return None;
      }
      var q := TakeFound(prevp, p, n, i, h, sbrk);
      r := Some(q + 1);
    }
  }

  /** Going round the list from the node after f, the block at index k is the first with room for n units. */
  ghost predicate FirstFit(h: Heap, f: nat, k: nat, n: nat) {
    && 1 <= k < |h.nodes| && h.nodes[k] in h.size && h.size[h.nodes[k]] >= n
    && exists j: nat :: j < |h.nodes| && h.nodes[j] == f && Small(h, j, k, n)
  }

  /** From h to g the last n units of the block at index k were taken; the search goes on behind its predecessor. */
  ghost predicate TookAt(h: Heap, g: Heap, k: nat, n: nat, q: nat, prevp: nat) {
    && 1 <= k < |h.nodes| && h.nodes[k] in h.size && n <= h.size[h.nodes[k]]
    && g == Taken(h, k, n) && q == TakenAt(h, k, n) && prevp == h.nodes[k - 1]
  }

  lemma {:induction false} FitFound(h: Heap, f: nat, k: nat, n: nat)
    requires f < |h.nodes| && k < |h.nodes| && Small(h, f, k, n) && h.nodes[k] in h.size && h.size[h.nodes[k]] >= n
    requires n > 0 && h.nodes[0] in h.size && h.size[h.nodes[0]] == 0
    ensures FirstFit(h, h.nodes[f], k, n) && !NoneFits(h, n)
  {
  }

  lemma {:induction false} BaseAlone(h: Heap, base: nat, n: nat, alone: bool)
    requires Valid(h, base) && n > 0 && (alone ==> h.nodes == [base])
    ensures alone ==> NoneFits(h, n)
  {
    NodesSized(h, base);
  }

  // ---- going round the ring

  ghost predicate Pos(nodes: seq<nat>, i: nat, p: nat, prevp: nat) {
    i < |nodes| && p == nodes[i] && prevp == nodes[if i == 0 then |nodes| - 1 else i - 1]
  }

  lemma {:induction false} NextPos(ptr: map<nat, nat>, nodes: seq<nat>, i: nat, p: nat)
    requires Circular(ptr, nodes) && i < |nodes| && nodes[i] == p
    ensures p in ptr && Pos(nodes, After1(i, |nodes|), ptr[p], p) && ptr[p] in ptr
  {
  }

  lemma {:induction false} Alone(ptr: map<nat, nat>, base: nat)
    requires base in ptr && ptr[base] == base
    ensures Circular(ptr, [base])
  {
  }

  lemma {:induction false} IndexOf(nodes: seq<nat>, a: nat) returns (i: nat)
    requires a in nodes
    ensures i < |nodes| && nodes[i] == a
  {
    i :| 0 <= i < |nodes| && nodes[i] == a;
  }

  lemma {:induction false} SameIndex(nodes: seq<nat>, i: nat, j: nat)
    requires NoRepeats(nodes) && i < |nodes| && j < |nodes| && nodes[i] == nodes[j]
    ensures i == j
  {
  }

  lemma {:induction false} NoneSeen(h: Heap, f: nat, n: nat)
    requires f < |h.nodes|
    ensures Small(h, f, After1(f, |h.nodes|), n)
  {
  }

  lemma {:induction false} SmallStep(h: Heap, f: nat, i: nat, n: nat)
    requires f < |h.nodes| && i < |h.nodes| && i != f && Small(h, f, i, n)
    requires h.nodes[i] in h.size && h.size[h.nodes[i]] < n
    ensures Small(h, f, After1(i, |h.nodes|), n)
    ensures Dist(After1(i, |h.nodes|), f, |h.nodes|) < Dist(i, f, |h.nodes|)
  {
    var i' := After1(i, |h.nodes|);
    forall j: nat | j < |h.nodes| && InArc(f, j, i') ensures h.nodes[j] in h.size && h.size[h.nodes[j]] < n {
      assert j == i || InArc(f, j, i);
    }
  }

  /** Going on from i round a ring of n, t comes no later than f. */
  ghost predicate ReachesFirst(i: nat, t: nat, f: nat, n: nat) {
    i < n && t < n && f < n && Dist(i, t, n) <= Dist(i, f, n)
  }

  lemma {:induction false} StartRound(t: nat, f: nat, n: nat)
    requires t < n && f < n
    ensures ReachesFirst(After1(f, n), t, f, n)
  {
  }

  lemma {:induction false} NextReaches(i: nat, t: nat, f: nat, n: nat)
    requires ReachesFirst(i, t, f, n) && i != t
    ensures ReachesFirst(After1(i, n), t, f, n) && Dist(After1(i, n), t, n) < Dist(i, t, n)
  {
  }

  lemma {:induction false} ReachedFirst(i: nat, t: nat, f: nat, n: nat)
    requires ReachesFirst(i, t, f, n) && i == f
    ensures i == t
  {
  }

  /** Block q of n units is handed out in g and was not in h; nothing else changed hands. */
  ghost predicate HandedOut(h: Heap, g: Heap, q: nat, n: nat) {
    !Live(h, q) && Live(g, q) && q in g.size && g.size[q] == n && OthersKept(g, h, q)
  }

  ghost predicate NoneFits(h: Heap, n: nat) {
    forall k :: 0 <= k < |h.nodes| ==> h.nodes[k] in h.size && h.size[h.nodes[k]] < n
  }

  /** The units of the heap are those of before, and at most the region sbrk gave. */
  ghost predicate UnitsKept(h: Heap, g: Heap, sbrk: Option<nat>, nu: nat) {
    g.own.Keys == h.own.Keys ||
    (sbrk.Some? && forall u: nat :: u in g.own <==> u in h.own || Within(u, sbrk.value, nu))
  }

  ghost predicate Small(h: Heap, f: nat, i: nat, n: nat) {
    forall j: nat :: j < |h.nodes| && InArc(f, j, i) ==> h.nodes[j] in h.size && h.size[h.nodes[j]] < n
  }

  lemma {:induction false} NodesSized(h: Heap, base: nat)
    requires Valid(h, base)
    ensures |h.nodes| > 0 && h.nodes[0] == base && base in h.size && h.size[base] == 0
    ensures forall k :: 0 <= k < |h.nodes| ==> h.nodes[k] in h.size
    ensures NoRepeats(h.nodes)
  {
    ListedDistinct(h, base);
  }

  lemma {:induction false} SameSelf(h: Heap, base: nat, sbrk: Option<nat>, nu: nat)
    requires Valid(h, base)
    ensures UnitsKept(h, h, sbrk, nu) && SameLive(h, h)
  {
  }

  lemma {:induction false} AllSmall(h: Heap, f: nat, n: nat)
    requires f < |h.nodes| && Small(h, f, f, n) && h.nodes[f] in h.size && h.size[h.nodes[f]] < n
    ensures NoneFits(h, n)
  {
    forall k | 0 <= k < |h.nodes| ensures h.nodes[k] in h.size && h.size[h.nodes[k]] < n {
      assert k != f ==> InArc(f, k, f);
    }
  }

  lemma {:induction false} GrewBy(h: Heap, g: Heap, sbrk: Option<nat>, nu: nat)
    requires sbrk.Some? && forall u: nat :: u in g.own <==> u in h.own || Within(u, sbrk.value, nu)
    ensures UnitsKept(h, g, sbrk, nu)
  {
  }

  lemma {:induction false} HandedOutThrough(h: Heap, g: Heap, f: Heap, q: nat, n: nat, sbrk: Option<nat>, nu: nat)
    requires SameLive(g, h) && UnitsKept(h, g, sbrk, nu) && f.own.Keys == g.own.Keys
    requires !Live(g, q) && Live(f, q) && q in f.size && f.size[q] == n && OthersKept(f, g, q)
    ensures HandedOut(h, f, q, n) && UnitsKept(h, f, sbrk, nu)
  {
  }

  /** The headers and the ring malloc leaves. */
  ghost predicate TakenOk(h: Heap, ptr: map<nat, nat>, i: nat, n: nat, r: Heap)
    requires 1 <= i < |h.nodes| && h.nodes[i] in h.size && n <= h.size[h.nodes[i]] && h.nodes[i] in ptr
  {
    var p := h.nodes[i];
    && h.nodes[i - 1] in r.nodes
    && (if h.size[p] == n then Circular(ptr[h.nodes[i - 1] := ptr[p]], r.nodes) && r.size == h.size
        else Circular(ptr, r.nodes) && r.size == h.size[p := h.size[p] - n][p + h.size[p] - n := n])
  }

  lemma {:induction false} TakenWholeLinks(h: Heap, ptr: map<nat, nat>, i: nat)
    requires Circular(ptr, h.nodes) && NoRepeats(h.nodes) && 1 <= i < |h.nodes| && h.nodes[i] in h.size
             && h.nodes[i] in ptr
    ensures TakenOk(h, ptr, i, h.size[h.nodes[i]], Taken(h, i, h.size[h.nodes[i]]))
  {
    hide Circular, NoRepeats, Splice;
    SkipOne(ptr, h.nodes, i);
  }

  lemma {:induction false} TakenTailLinks(h: Heap, ptr: map<nat, nat>, i: nat, n: nat)
    requires Circular(ptr, h.nodes) && 1 <= i < |h.nodes| && h.nodes[i] in h.size && h.nodes[i] in ptr
             && n < h.size[h.nodes[i]]
    ensures TakenOk(h, ptr, i, n, Taken(h, i, n))
  {
    hide Circular;
    assert h.nodes[i - 1] in h.nodes;
  }

  lemma {:induction false} TakenLinks(h: Heap, base: nat, ptr: map<nat, nat>, i: nat, n: nat)
    requires Valid(h, base) && Circular(ptr, h.nodes) && 1 <= i < |h.nodes| && 0 < n <= h.size[h.nodes[i]]
    ensures h.nodes[i] in ptr && TakenOk(h, ptr, i, n, Taken(h, i, n))
  {
    hide Tiled, Sized, NoRepeats, TakenOk, Taken;
    ListedDistinct(h, base);
    if h.size[h.nodes[i]] == n {
      TakenWholeLinks(h, ptr, i);
    } else {
      TakenTailLinks(h, ptr, i, n);
    }
  }

  lemma {:induction false} SkipOne(ptr: map<nat, nat>, nodes: seq<nat>, i: nat)
    requires Circular(ptr, nodes) && NoRepeats(nodes) && 1 <= i < |nodes|
    ensures Circular(ptr[nodes[i - 1] := ptr[nodes[i]]], Splice(nodes, i - 1, 1, []))
    ensures nodes[i - 1] in Splice(nodes, i - 1, 1, [])
  {
    assert ptr[nodes[i]] == Succ(nodes, i);
    hide Circular, NoRepeats, Succ;
    CircularSkip(ptr, nodes, i - 1, 1);
    assert Splice(nodes, i - 1, 1, [])[i - 1] == nodes[i - 1];
  }

  /** The same blocks are handed out, with the same sizes. */
  ghost predicate SameLive(g: Heap, h: Heap) {
    forall b :: (Live(g, b) <==> Live(h, b)) && (Live(h, b) ==> b in g.size && b in h.size && g.size[b] == h.size[b])
  }

  lemma {:induction false} SameLiveAfter(f: Heap, g: Heap, h: Heap, a: nat)
    requires OthersKept(f, g, a) && OthersKept(g, h, a) && !Live(f, a) && !Live(h, a)
    ensures SameLive(f, h)
  {
  }

  /** A fresh region is a valid block that overlaps no other. */
  lemma {:induction false} GrowKeeps(h: Heap, base: nat, r: nat, n: nat)
    requires Valid(h, base) && n > 0 && base < r && forall u: nat :: Within(u, r, n) ==> u !in h.own
    ensures var g := Grow(h, r, n);
            && Valid(g, base) && Live(g, r) && !Live(h, r) && r !in h.nodes && OthersKept(g, h, r)
            && g.nodes == h.nodes && g.size == h.size[r := n]
    ensures forall u: nat :: u in Grow(h, r, n).own <==> u in h.own || Within(u, r, n)
  {
    GrowTiled(h, base, r, n);
    var g := Grow(h, r, n);
    forall b | Live(h, b) ensures b in h.size {
      assert b in h.blocks;
    }
    hide Tiled, Sized;
    forall i, j | 0 <= i < j < |g.nodes| ensures g.nodes[i] + g.size[g.nodes[i]] < g.nodes[j] {
      assert h.nodes[i] + h.size[h.nodes[i]] < h.nodes[j];
    }
  }

  /** The header sizes free writes, when q follows p on the list. */
  function RelinkedSize(size: map<nat, nat>, q: nat, p: nat, bp: nat): (r: map<nat, nat>)
    requires p in size && bp in size && (bp + size[bp] == q ==> q in size)
  {
    var s := if bp + size[bp] == q then size[bp := size[bp] + size[q]] else size;
    if p + s[p] == bp then s[p := s[p] + s[bp]] else s
  }

  /** The list after free, as one splice. */
  function FreedNodes(h: Heap, k: nat, bp: nat): (r: seq<nat>)
    requires k < |h.nodes| && bp in h.size && h.nodes[k] in h.size
  {
    Splice(h.nodes, k, if Joins(h, k, bp) then 1 else 0, if h.nodes[k] + h.size[h.nodes[k]] == bp then [] else [bp])
  }

  lemma {:induction false} FreedIsSplice(h: Heap, k: nat, bp: nat, q: nat)
    requires k < |h.nodes| && bp in h.size && bp !in h.nodes && forall i :: 0 <= i < |h.nodes| ==> h.nodes[i] in h.size
    requires if Joins(h, k, bp) then q == h.nodes[k + 1] else bp + h.size[bp] != q
    ensures Freed(h, k, bp).nodes == FreedNodes(h, k, bp)
    ensures Freed(h, k, bp).size == RelinkedSize(h.size, q, h.nodes[k], bp)
    ensures h.nodes[k] in FreedNodes(h, k, bp)
  {
    assert FreedNodes(h, k, bp)[k] == h.nodes[k];
  }

  /** The links free writes make the ring of the new list. */
  lemma {:induction false} RingAfterFree(h: Heap, ptr: map<nat, nat>, k: nat, bp: nat)
    requires k < |h.nodes| && bp in h.size && bp !in h.nodes && forall i :: 0 <= i < |h.nodes| ==> h.nodes[i] in h.size
    requires Circular(ptr, h.nodes) && NoRepeats(h.nodes)
    ensures var p := h.nodes[k];
            var x := Succ(h.nodes, if Joins(h, k, bp) then k + 1 else k);
            Circular(ptr[bp := x][p := if p + h.size[p] == bp then x else bp], FreedNodes(h, k, bp))
  {
    var p := h.nodes[k];
    var d := if Joins(h, k, bp) then 1 else 0;
    var x := Succ(h.nodes, k + d);
    if p + h.size[p] == bp {
      CircularFrame(ptr, h.nodes, bp, x);
      CircularSkip(ptr[bp := x], h.nodes, k, d);
    } else {
      CircularInsert(ptr, h.nodes, k, d, bp);
    }
  }

  /** What the C expressions of free evaluate to. */
  lemma {:induction false} FreeReads(h: Heap, base: nat, ptr: map<nat, nat>, k: nat, bp: nat)
    requires Valid(h, base) && Live(h, bp) && After(h, k, bp) && Circular(ptr, h.nodes)
    ensures var p := h.nodes[k];
            && p in ptr && p in h.size && bp in h.size && p != bp && bp !in h.nodes && ptr[p] != bp
            && (bp + h.size[bp] == ptr[p] <==> Joins(h, k, bp))
            && (Joins(h, k, bp) ==> ptr[p] == h.nodes[k + 1] && ptr[p] in ptr && ptr[p] in h.size && ptr[p] != p
                                    && ptr[ptr[p]] == Succ(h.nodes, k + 1))
            && (!Joins(h, k, bp) ==> ptr[p] == Succ(h.nodes, k))
  {
    assert base < bp;
    if k + 1 < |h.nodes| {
      assert h.nodes[k] + h.size[h.nodes[k]] < h.nodes[k + 1];
    }
  }

  /** What free's assignments read. */
  ghost predicate Readable(h: Heap, ptr: map<nat, nat>, k: nat, bp: nat) {
    && k < |h.nodes| && bp in h.size && (forall i :: 0 <= i < |h.nodes| ==> h.nodes[i] in h.size)
    && var p := h.nodes[k];
    && p in ptr && p != bp && ptr[p] != bp
    && (bp + h.size[bp] == ptr[p] <==> Joins(h, k, bp))
    && (Joins(h, k, bp) ==> ptr[p] in ptr && ptr[p] in h.size)
  }

  /** What free's assignments leave. */
  ghost predicate Relinks(h: Heap, ptr: map<nat, nat>, k: nat, bp: nat, x: nat, r: Heap)
    requires Readable(h, ptr, k, bp)
  {
    var p := h.nodes[k];
    && x == (if Joins(h, k, bp) then ptr[ptr[p]] else ptr[p])
    && r.size == RelinkedSize(h.size, ptr[p], p, bp)
    && p in r.nodes
    && Circular(ptr[bp := x][p := if p + h.size[p] == bp then x else bp], r.nodes)
  }

  lemma {:induction false} FreedLinks(h: Heap, base: nat, ptr: map<nat, nat>, k: nat, bp: nat)
    requires Valid(h, base) && Live(h, bp) && After(h, k, bp) && Circular(ptr, h.nodes)
    ensures Readable(h, ptr, k, bp)
    ensures Relinks(h, ptr, k, bp, Succ(h.nodes, if Joins(h, k, bp) then k + 1 else k), Freed(h, k, bp))
  {
    hide Circular, Freed, FreedNodes, RelinkedSize, Valid, Live, Succ, NoRepeats;
    FreeReads(h, base, ptr, k, bp);
    NodesSized(h, base);
    FreedIsSplice(h, k, bp, ptr[h.nodes[k]]);
    RingAfterFree(h, ptr, k, bp);
  }

  lemma {:induction false} SamePlace(h: Heap, base: nat, k: nat, t: nat, bp: nat)
    requires Listed(h, base) && After(h, t, bp) && k < |h.nodes| && k != t
    ensures !(h.nodes[k] < bp && (k + 1 < |h.nodes| ==> bp < h.nodes[k + 1]))
  {
  }
}
