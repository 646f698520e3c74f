/** The heap of user/umalloc.c on values. Addresses count header-sized units, as the pointer arithmetic does. */
module HeapSpec {

  /** blocks are the addresses of all blocks, free or handed out; nodes are the free ones in address order, the
      first being the static base; size is what each header says; own names, for each unit ever obtained, the
      block it belongs to. */
  datatype Heap = Heap(nodes: seq<nat>, blocks: set<nat>, size: map<nat, nat>, own: map<nat, nat>)

  ghost predicate Live(h: Heap, a: nat) {
    a in h.blocks && a !in h.nodes
  }

  ghost predicate Sized(h: Heap, base: nat) {
    && base in h.blocks && base in h.size && h.size[base] == 0
    && (forall a :: a in h.blocks ==> a in h.size)
    && (forall a :: a in h.blocks && a != base ==> h.size[a] > 0 && base < a)
  }

  ghost predicate Covers(h: Heap, a: nat) {
    a in h.size && forall u: nat :: a <= u < a + h.size[a] ==> u in h.own && h.own[u] == a
  }

  ghost predicate Spanned(h: Heap, u: nat)
    requires u in h.own
  {
    h.own[u] in h.blocks && h.own[u] in h.size && h.own[u] <= u < h.own[u] + h.size[h.own[u]]
  }

  /** The blocks tile the obtained units: every unit belongs to exactly one block, which spans it. */
  ghost predicate Tiled(h: Heap) {
    && (forall a :: a in h.blocks ==> Covers(h, a))
    && (forall u :: u in h.own ==> Spanned(h, u))
  }

  /** The free list starts at the base, is in address order, and no two free blocks touch: everything that
      could be coalesced has been. */
  ghost predicate Listed(h: Heap, base: nat) {
    && |h.nodes| > 0 && h.nodes[0] == base
    && (forall k :: 0 <= k < |h.nodes| ==> h.nodes[k] in h.blocks && h.nodes[k] in h.size)
    && (forall i, j :: 0 <= i < j < |h.nodes| ==> h.nodes[i] + h.size[h.nodes[i]] < h.nodes[j])
  }

  ghost predicate Valid(h: Heap, base: nat) {
    Sized(h, base) && Tiled(h) && Listed(h, base)
  }

  // ---- the elementary changes, each of which keeps the heap valid

  function Relabel(own: map<nat, nat>, from: nat, to: nat): (r: map<nat, nat>) {
    map u | u in own :: if own[u] == from then to else own[u]
  }

  /** Block a swallows block b right after it. */
  function Merge(h: Heap, a: nat, b: nat): (r: Heap)
    requires a in h.size && b in h.size
  {
    h.(blocks := h.blocks - {b}, size := h.size[a := h.size[a] + h.size[b]], own := Relabel(h.own, b, a))
  }

  /** A list with d nodes after the k-th replaced by mid. */
  function Splice(nodes: seq<nat>, k: nat, d: nat, mid: seq<nat>): (r: seq<nat>)
    requires k + d < |nodes|
  {
    nodes[..k + 1] + mid + nodes[k + 1 + d..]
  }

  /** Free block nodes[k + 1] is swallowed by bp, which is not on the list. */
  function AbsorbNext(h: Heap, k: nat, bp: nat): (r: Heap)
    requires k + 1 < |h.nodes| && bp in h.size && h.nodes[k + 1] in h.size
  {
    Merge(h, bp, h.nodes[k + 1]).(nodes := Splice(h.nodes, k, 1, []))
  }

  /** The last n units of block p become a block of their own. */
  function Split(h: Heap, p: nat, n: nat): (r: Heap)
    requires p in h.size && n < h.size[p]
  {
    var q := p + h.size[p] - n;
    h.(blocks := h.blocks + {q}, size := h.size[p := h.size[p] - n][q := n],
       own := map u | u in h.own :: if q <= u < q + n then q else h.own[u])
  }

  /** n units at r, fresh from sbrk, become a block. */
  function Grow(h: Heap, r: nat, n: nat): (g: Heap) {
    var units := map u: nat | r <= u < r + n && Within(u, r, n) :: r;
    h.(blocks := h.blocks + {r}, size := h.size[r := n], own := h.own + units)
  }

  predicate Within(u: nat, r: nat, n: nat) {
    r <= u < r + n
  }

  lemma {:induction false} MergeTiled(h: Heap, base: nat, a: nat, b: nat)
    requires Sized(h, base) && Tiled(h) && a in h.blocks && b in h.blocks && a != base && b != base
    requires a + h.size[a] == b
    ensures Sized(Merge(h, a, b), base) && Tiled(Merge(h, a, b)) && Merge(h, a, b).own.Keys == h.own.Keys
  {
    var r := Merge(h, a, b);
    forall c | c in r.blocks ensures Covers(r, c) {
      assert Covers(h, c) && Covers(h, b);
    }
    forall u | u in r.own ensures Spanned(r, u) {
      assert Spanned(h, u);
    }
  }

  /** The middle of a block is not the start of another. */
  lemma {:induction false} InsideIsNoBlock(h: Heap, p: nat, q: nat)
    requires Tiled(h) && p in h.blocks && p in h.size && p < q < p + h.size[p]
    ensures q in h.own && h.own[q] == p
    ensures q in h.blocks && q in h.size ==> h.size[q] == 0
  {
    assert Covers(h, p);
    assert q in h.blocks ==> Covers(h, q);
  }

  lemma {:induction false} SplitCovers(h: Heap, base: nat, p: nat, n: nat, c: nat)
    requires Sized(h, base) && Tiled(h) && p in h.blocks && 0 < n < h.size[p] && c in Split(h, p, n).blocks
    ensures Covers(Split(h, p, n), c)
  {
    var q := p + h.size[p] - n;
    InsideIsNoBlock(h, p, q);
    assert Covers(h, p);
    if c != q {
      assert Covers(h, c);
    }
  }

  lemma {:induction false} SplitTiled(h: Heap, base: nat, p: nat, n: nat)
    requires Sized(h, base) && Tiled(h) && p in h.blocks && 0 < n < h.size[p]
    ensures var r := Split(h, p, n);
            Sized(r, base) && Tiled(r) && r.own.Keys == h.own.Keys && p + h.size[p] - n !in h.blocks
  {
    var q := p + h.size[p] - n;
    InsideIsNoBlock(h, p, q);
    var r := Split(h, p, n);
    forall c | c in r.blocks ensures Covers(r, c) {
      SplitCovers(h, base, p, n, c);
    }
    assert Covers(h, p);
    forall u | u in r.own ensures Spanned(r, u) {
      SplitSpans(h, p, n, u);
    }
  }

  lemma {:induction false} SplitSpans(h: Heap, p: nat, n: nat, u: nat)
    requires p in h.blocks && Covers(h, p) && 0 < n < h.size[p] && p + h.size[p] - n !in h.blocks
    requires u in h.own && Spanned(h, u)
    ensures u in Split(h, p, n).own && Spanned(Split(h, p, n), u)
  {
    if p <= u < p + h.size[p] {
      CoversAt(h, p, u);
    }
  }

  lemma {:induction false} CoversAt(h: Heap, a: nat, u: nat)
    requires Covers(h, a) && a <= u < a + h.size[a]
    ensures u in h.own && h.own[u] == a
  {
  }

  lemma {:induction false} GrowTiled(h: Heap, base: nat, r: nat, n: nat)
    requires Sized(h, base) && Tiled(h) && n > 0 && base < r
    requires forall u: nat :: Within(u, r, n) ==> u !in h.own
    ensures var g := Grow(h, r, n); Sized(g, base) && Tiled(g) && r !in h.blocks
    ensures forall u: nat :: u in Grow(h, r, n).own <==> u in h.own || Within(u, r, n)
  {
    var g := Grow(h, r, n);
    assert Within(r, r, n);
    assert r in h.blocks ==> Covers(h, r);
    forall c | c in g.blocks ensures Covers(g, c) {
      if c != r {
        assert Covers(h, c);
        forall u: nat | c <= u < c + g.size[c] ensures u in g.own && g.own[u] == c {
          assert !Within(u, r, n);
        }
      } else {
        forall u: nat | c <= u < c + g.size[c] ensures u in g.own && g.own[u] == c {
          assert Within(u, r, n);
        }
      }
    }
    forall u | u in g.own ensures Spanned(g, u) {
      if u in h.own {
        assert Spanned(h, u) && !Within(u, r, n);
      }
    }
  }

  // ---- the free list

  /** The place of bp in address order: after nodes[k]. */
  ghost predicate After(h: Heap, k: nat, bp: nat) {
    && k < |h.nodes| && h.nodes[k] < bp && (k + 1 < |h.nodes| ==> bp < h.nodes[k + 1])
  }

  /** A block that is not free does not overlap the free blocks around its place. */
  lemma {:induction false} NoOverlap(h: Heap, base: nat, k: nat, bp: nat)
    requires Valid(h, base) && Live(h, bp) && After(h, k, bp)
    ensures h.nodes[k] + h.size[h.nodes[k]] <= bp
    ensures k + 1 < |h.nodes| ==> bp + h.size[bp] <= h.nodes[k + 1]
  {
    var p := h.nodes[k];
    assert Covers(h, p) && Covers(h, bp);
    assert bp != base && h.size[bp] > 0;
    assert h.own[bp] == bp;
    if k + 1 < |h.nodes| {
      var nx := h.nodes[k + 1];
      assert Covers(h, nx);
      assert nx != base by {
        assert h.nodes[0] + h.size[h.nodes[0]] < h.nodes[k + 1];
      }
      assert h.own[nx] == nx;
    }
  }

  /** Taking nodes[k + 1] off the list leaves a list. */
  lemma {:induction false} UnlistValid(h: Heap, base: nat, k: nat, r: Heap)
    requires Listed(h, base) && k + 1 < |h.nodes| && r.nodes == Splice(h.nodes, k, 1, [])
    requires forall i :: 0 <= i < |h.nodes| && i != k + 1 ==>
               h.nodes[i] in r.blocks && h.nodes[i] in r.size && r.size[h.nodes[i]] == h.size[h.nodes[i]]
    ensures Listed(r, base)
  {
    forall i, j | 0 <= i < j < |r.nodes| ensures r.nodes[i] + r.size[r.nodes[i]] < r.nodes[j] {
      var i', j' := if i <= k then i else i + 1, if j <= k then j else j + 1;
      assert h.nodes[i'] + h.size[h.nodes[i']] < h.nodes[j'];
    }
  }

  lemma {:induction false} AbsorbNextValid(h: Heap, base: nat, k: nat, bp: nat)
    requires Valid(h, base) && Live(h, bp) && After(h, k, bp)
    requires k + 1 < |h.nodes| && bp + h.size[bp] == h.nodes[k + 1]
    ensures var r := AbsorbNext(h, k, bp);
            && Valid(r, base) && Live(r, bp) && After(r, k, bp) && r.own.Keys == h.own.Keys
            && (k + 1 < |r.nodes| ==> bp + r.size[bp] < r.nodes[k + 1])
  {
    var nx := h.nodes[k + 1];
    assert h.nodes[0] + h.size[h.nodes[0]] < h.nodes[k + 1];
    MergeTiled(h, base, bp, nx);
    var r := AbsorbNext(h, k, bp);
    TiledByBlocks(Merge(h, bp, nx), r);
    hide Tiled, Sized;
    forall i | 0 <= i < |h.nodes| && i != k + 1 ensures h.nodes[i] != nx && h.nodes[i] != bp {
      if i < k + 1 {
        assert h.nodes[i] + h.size[h.nodes[i]] < h.nodes[k + 1];
      } else {
        assert h.nodes[k + 1] + h.size[nx] < h.nodes[i];
      }
    }
    UnlistValid(h, base, k, r);
    if k + 1 < |r.nodes| {
      assert h.nodes[k + 1] + h.size[nx] < h.nodes[k + 2];
    }
  }

  lemma {:induction false} AbsorbIntoValid(h: Heap, base: nat, k: nat, bp: nat)
    requires Valid(h, base) && Live(h, bp) && After(h, k, bp) && h.nodes[k] + h.size[h.nodes[k]] == bp
    requires k + 1 < |h.nodes| ==> bp + h.size[bp] < h.nodes[k + 1]
    ensures var r := Merge(h, h.nodes[k], bp); Valid(r, base) && r.own.Keys == h.own.Keys
  {
    MergeTiled(h, base, h.nodes[k], bp);
    var r := Merge(h, h.nodes[k], bp);
    forall i, j | 0 <= i < j < |r.nodes| ensures r.nodes[i] + r.size[r.nodes[i]] < r.nodes[j] {
      assert h.nodes[i] + h.size[h.nodes[i]] < h.nodes[j];
      if i == k && k + 1 < j {
        assert h.nodes[k + 1] + h.size[h.nodes[k + 1]] < h.nodes[j];
      }
    }
  }

  lemma {:induction false} TiledByBlocks(h: Heap, r: Heap)
    requires r.blocks == h.blocks && r.size == h.size && r.own == h.own
    ensures Tiled(h) ==> Tiled(r)
    ensures forall base :: Sized(h, base) ==> Sized(r, base)
  {
    if Tiled(h) {
      forall a | a in r.blocks ensures Covers(r, a) {
        assert Covers(h, a);
      }
      forall u | u in r.own ensures Spanned(r, u) {
        assert Spanned(h, u);
      }
    }
  }

  lemma {:induction false} LinkOrdered(h: Heap, base: nat, k: nat, bp: nat, i: nat, j: nat)
    requires Listed(h, base) && k < |h.nodes| && bp in h.size && h.nodes[k] + h.size[h.nodes[k]] < bp
    requires k + 1 < |h.nodes| ==> bp + h.size[bp] < h.nodes[k + 1]
    requires var nodes := Splice(h.nodes, k, 0, [bp]); i < j < |nodes|
    ensures var nodes := Splice(h.nodes, k, 0, [bp]);
            nodes[i] in h.size && nodes[j] in h.size && nodes[i] + h.size[nodes[i]] < nodes[j]
  {
    hide Splice, Listed;
    LinkedNode(h.nodes, k, bp, 0);
    LinkedNode(h.nodes, k, bp, i);
    LinkedNode(h.nodes, k, bp, j);
    NodeIn(h, base, k);
    if i == k + 1 {
      NodeIn(h, base, j - 1);
      if j > k + 2 {
        NodesApart(h, base, k + 1, j - 1);
      }
    } else if j == k + 1 {
      NodeIn(h, base, i);
      if i < k {
        NodesApart(h, base, i, k);
      }
    } else {
      NodesApart(h, base, if i <= k then i else i - 1, if j <= k then j else j - 1);
    }
  }

  /** The nodes of a list with bp linked behind nodes[k]. */
  lemma {:induction false} LinkedNode(nodes: seq<nat>, k: nat, bp: nat, i: nat)
    requires k < |nodes| && i <= |nodes|
    ensures var r := Splice(nodes, k, 0, [bp]);
            |r| == |nodes| + 1 && r[i] == if i <= k then nodes[i] else if i == k + 1 then bp else nodes[i - 1]
  {
  }

  lemma {:induction false} NodeIn(h: Heap, base: nat, i: nat)
    requires Listed(h, base) && i < |h.nodes|
    ensures h.nodes[i] in h.size
  {
  }

  lemma {:induction false} NodesApart(h: Heap, base: nat, i: nat, j: nat)
    requires Listed(h, base) && i < j < |h.nodes|
    ensures h.nodes[i] in h.size && h.nodes[j] in h.size && h.nodes[i] + h.size[h.nodes[i]] < h.nodes[j]
  {
  }

  lemma {:induction false} LinkValid(h: Heap, base: nat, k: nat, bp: nat)
    requires Valid(h, base) && Live(h, bp) && After(h, k, bp) && h.nodes[k] + h.size[h.nodes[k]] < bp
    requires k + 1 < |h.nodes| ==> bp + h.size[bp] < h.nodes[k + 1]
    ensures Valid(h.(nodes := Splice(h.nodes, k, 0, [bp])), base)
  {
    hide Tiled;
    var r := h.(nodes := Splice(h.nodes, k, 0, [bp]));
    TiledByBlocks(h, r);
    assert bp in h.size;
    forall i, j | 0 <= i < j < |r.nodes| ensures r.nodes[i] + r.size[r.nodes[i]] < r.nodes[j] {
      LinkOrdered(h, base, k, bp, i, j);
    }
  }

  // ---- free and malloc

  /** Blocks other than a that are handed out in g are handed out in h, with the same size, and conversely. */
  ghost predicate OthersKept(g: Heap, h: Heap, a: nat) {
    forall b :: b != a ==>
      && (Live(g, b) <==> Live(h, b))
      && (Live(h, b) ==> b in g.size && b in h.size && g.size[b] == h.size[b])
  }

  function Joins(h: Heap, k: nat, bp: nat): bool
    requires k < |h.nodes| && bp in h.size
  {
    k + 1 < |h.nodes| && bp + h.size[bp] == h.nodes[k + 1]
  }

  /** free of block bp, whose place is after nodes[k]. */
  function Freed(h: Heap, k: nat, bp: nat): (r: Heap)
    requires k < |h.nodes| && bp in h.size && forall i :: 0 <= i < |h.nodes| ==> h.nodes[i] in h.size
  {
    Settled(if Joins(h, k, bp) then AbsorbNext(h, k, bp) else h, k, bp)
  }

  /** The second half of free: block bp joins nodes[k], or follows it on the list. */
  function Settled(h: Heap, k: nat, bp: nat): (r: Heap)
    requires k < |h.nodes| && bp in h.size && h.nodes[k] in h.size
  {
    var p := h.nodes[k];
    if p + h.size[p] == bp then Merge(h, p, bp) else h.(nodes := Splice(h.nodes, k, 0, [bp]))
  }

  lemma {:induction false} AbsorbNextKeeps(h: Heap, base: nat, k: nat, bp: nat)
    requires Valid(h, base) && Live(h, bp) && After(h, k, bp) && Joins(h, k, bp)
    ensures OthersKept(AbsorbNext(h, k, bp), h, bp)
  {
    hide Tiled;
    var g := AbsorbNext(h, k, bp);
    assert h.nodes == h.nodes[..k + 1] + [h.nodes[k + 1]] + h.nodes[k + 2..];
    forall b | b != bp ensures Live(g, b) <==> Live(h, b) {
      assert b in h.nodes <==> b in g.nodes || b == h.nodes[k + 1];
    }
  }

  lemma {:induction false} LinkKeeps(h: Heap, k: nat, bp: nat)
    requires k < |h.nodes| && Live(h, bp) && forall a :: a in h.blocks ==> a in h.size
    ensures var r := h.(nodes := Splice(h.nodes, k, 0, [bp])); OthersKept(r, h, bp) && !Live(r, bp)
  {
    var r := h.(nodes := Splice(h.nodes, k, 0, [bp]));
    assert h.nodes == h.nodes[..k + 1] + h.nodes[k + 1..];
    forall b ensures b in r.nodes <==> b in h.nodes || b == bp {
    }
  }

  lemma {:induction false} SettledValid(h: Heap, base: nat, k: nat, bp: nat)
    requires Valid(h, base) && Live(h, bp) && After(h, k, bp) && h.nodes[k] + h.size[h.nodes[k]] <= bp
    requires k + 1 < |h.nodes| ==> bp + h.size[bp] < h.nodes[k + 1]
    ensures var r := Settled(h, k, bp);
            Valid(r, base) && r.own.Keys == h.own.Keys && OthersKept(r, h, bp) && !Live(r, bp)
  {
    if h.nodes[k] + h.size[h.nodes[k]] == bp {
      AbsorbIntoValid(h, base, k, bp);
    } else {
      LinkValid(h, base, k, bp);
      LinkKeeps(h, k, bp);
    }
  }

  lemma {:induction false} KeptThrough(f: Heap, g: Heap, h: Heap, a: nat)
    requires OthersKept(f, g, a) && OthersKept(g, h, a)
    ensures OthersKept(f, h, a)
  {
  }

  /** free keeps every unit, hands back exactly its block, and coalesces it with its neighbours. */
  lemma {:induction false} FreedValid(h: Heap, base: nat, k: nat, bp: nat)
    requires Valid(h, base) && Live(h, bp) && After(h, k, bp)
    ensures var r := Freed(h, k, bp);
            Valid(r, base) && r.own.Keys == h.own.Keys && OthersKept(r, h, bp) && !Live(r, bp)
  {
    NoOverlap(h, base, k, bp);
    if Joins(h, k, bp) {
      var g := AbsorbNext(h, k, bp);
      AbsorbNextValid(h, base, k, bp);
      AbsorbNextKeeps(h, base, k, bp);
      NoOverlap(g, base, k, bp);
      SettledValid(g, base, k, bp);
      KeptThrough(Settled(g, k, bp), g, h, bp);
    } else {
      SettledValid(h, base, k, bp);
    }
  }

  /** malloc of n units from nodes[k]: the whole block, or its tail. */
  function Taken(h: Heap, k: nat, n: nat): (r: Heap)
    requires 1 <= k < |h.nodes| && h.nodes[k] in h.size && n <= h.size[h.nodes[k]]
  {
    if h.size[h.nodes[k]] == n then h.(nodes := Splice(h.nodes, k - 1, 1, [])) else Split(h, h.nodes[k], n)
  }

  function TakenAt(h: Heap, k: nat, n: nat): (q: nat)
    requires 1 <= k < |h.nodes| && h.nodes[k] in h.size && n <= h.size[h.nodes[k]]
  {
    h.nodes[k] + h.size[h.nodes[k]] - n
  }

  /** malloc keeps every unit and hands out one new block of exactly n units, overlapping no other. */
  lemma {:induction false} TakenValid(h: Heap, base: nat, k: nat, n: nat)
    requires Valid(h, base) && 1 <= k < |h.nodes| && 0 < n <= h.size[h.nodes[k]]
    ensures var r, q := Taken(h, k, n), TakenAt(h, k, n);
            && Valid(r, base) && r.own.Keys == h.own.Keys && OthersKept(r, h, q)
            && !Live(h, q) && Live(r, q) && q in r.size && r.size[q] == n
  {
    if h.size[h.nodes[k]] == n {
      WholeValid(h, base, k);
    } else {
      TailValid(h, base, k, n);
    }
  }

  lemma {:induction false} WholeValid(h: Heap, base: nat, k: nat)
    requires Valid(h, base) && 1 <= k < |h.nodes|
    ensures var r := h.(nodes := Splice(h.nodes, k - 1, 1, []));
            Valid(r, base) && OthersKept(r, h, h.nodes[k]) && Live(r, h.nodes[k])
  {
    var p := h.nodes[k];
    var r := h.(nodes := Splice(h.nodes, k - 1, 1, []));
    UnlistValid(h, base, k - 1, r);
    assert h.nodes == h.nodes[..k] + [p] + h.nodes[k + 1..];
    forall i | 0 <= i < |h.nodes| && i != k ensures h.nodes[i] != p {
      if i < k {
        assert h.nodes[i] + h.size[h.nodes[i]] < h.nodes[k];
      } else {
        assert h.nodes[k] + h.size[h.nodes[k]] < h.nodes[i];
      }
    }
    assert p !in r.nodes;
    forall b ensures b in h.nodes <==> b in r.nodes || b == p {
    }
  }

  lemma {:induction false} TailValid(h: Heap, base: nat, k: nat, n: nat)
    requires Valid(h, base) && 1 <= k < |h.nodes| && 0 < n < h.size[h.nodes[k]]
    ensures var r, q := Split(h, h.nodes[k], n), TakenAt(h, k, n);
            && Valid(r, base) && r.own.Keys == h.own.Keys && OthersKept(r, h, q)
            && !Live(h, q) && Live(r, q) && q in r.size && r.size[q] == n
  {
    SplitTiled(h, base, h.nodes[k], n);
    hide Tiled;
    var r := Split(h, h.nodes[k], n);
    forall i, j | 0 <= i < j < |r.nodes| ensures r.nodes[i] + r.size[r.nodes[i]] < r.nodes[j] {
      assert h.nodes[i] + h.size[h.nodes[i]] < h.nodes[j];
    }
  }

  /** No two blocks overlap, whether free or handed out. */
  lemma {:induction false} BlocksDisjoint(h: Heap, base: nat, a: nat, b: nat)
    requires Valid(h, base) && a in h.blocks && b in h.blocks && a < b
    ensures a + h.size[a] <= b
  {
    assert Covers(h, a) && Covers(h, b);
    assert b != base && h.size[b] > 0;
    assert h.own[b] == b;
  }

  /** The same free list, block for block and size for size, over the same units. */
  ghost predicate SameFree(g: Heap, h: Heap) {
    && g.nodes == h.nodes && g.blocks == h.blocks && g.own == h.own
    && forall k :: 0 <= k < |h.nodes| ==>
         h.nodes[k] in g.size && h.nodes[k] in h.size && g.size[h.nodes[k]] == h.size[h.nodes[k]]
  }

  /** Freeing what malloc just handed out restores the free list exactly, by coalescing. */
  lemma {:induction false} FreeUndoesMalloc(h: Heap, base: nat, k: nat, n: nat) returns (m: nat)
    requires Valid(h, base) && 1 <= k < |h.nodes| && 0 < n <= h.size[h.nodes[k]]
    ensures var r, q := Taken(h, k, n), TakenAt(h, k, n);
            After(r, m, q) && q in r.size && (forall i :: 0 <= i < |r.nodes| ==> r.nodes[i] in r.size)
            && SameFree(Freed(r, m, q), h)
  {
    hide Freed, SameFree, Tiled, Sized, After, Splice;
    if h.size[h.nodes[k]] == n {
      m := k - 1;
      WholeUndone(h, base, k);
    } else {
      m := k;
      TailUndone(h, base, k, n);
    }
  }

  lemma {:induction false} WholeUndone(h: Heap, base: nat, k: nat)
    requires Valid(h, base) && 1 <= k < |h.nodes|
    ensures var r := h.(nodes := Splice(h.nodes, k - 1, 1, []));
            After(r, k - 1, h.nodes[k]) && (forall i :: 0 <= i < |r.nodes| ==> r.nodes[i] in r.size)
            && SameFree(Freed(r, k - 1, h.nodes[k]), h)
  {
    hide Tiled, Sized;
    var p := h.nodes[k];
    var r := h.(nodes := Splice(h.nodes, k - 1, 1, []));
    assert h.nodes[k - 1] + h.size[h.nodes[k - 1]] < h.nodes[k];
    assert k + 1 < |h.nodes| ==> h.nodes[k] + h.size[p] < h.nodes[k + 1];
    assert Splice(r.nodes, k - 1, 0, [p]) == h.nodes;
  }

  lemma {:induction false} TailUndone(h: Heap, base: nat, k: nat, n: nat)
    requires Valid(h, base) && 1 <= k < |h.nodes| && 0 < n < h.size[h.nodes[k]]
    ensures var r, q := Split(h, h.nodes[k], n), TakenAt(h, k, n);
            After(r, k, q) && (forall i :: 0 <= i < |r.nodes| ==> r.nodes[i] in r.size)
            && SameFree(Freed(r, k, q), h)
  {
    hide Tiled, Sized, Relabel;
    var p := h.nodes[k];
    var q := TakenAt(h, k, n);
    var r := Split(h, p, n);
    assert k + 1 < |h.nodes| ==> p + h.size[p] < h.nodes[k + 1];
    SplitTiled(h, base, p, n);
    assert !Joins(r, k, q);
    var f := Freed(r, k, q);
    assert f == Merge(r, p, q);
    RelabelBack(h, base, p, n);
    assert f.blocks == h.blocks;
  }

  lemma {:induction false} RelabelAt(h: Heap, p: nat, n: nat, u: nat)
    requires p in h.size && n < h.size[p] && u in h.own && Spanned(h, u) && Covers(h, p)
             && p + h.size[p] - n !in h.blocks
    ensures u in Relabel(Split(h, p, n).own, p + h.size[p] - n, p)
            && Relabel(Split(h, p, n).own, p + h.size[p] - n, p)[u] == h.own[u]
  {
  }

  /** Merging the two parts of a split block labels its units as before. */
  lemma {:induction false} RelabelBack(h: Heap, base: nat, p: nat, n: nat)
    requires Sized(h, base) && Tiled(h) && p in h.blocks && 0 < n < h.size[p] && p + h.size[p] - n !in h.blocks
    ensures Relabel(Split(h, p, n).own, p + h.size[p] - n, p) == h.own
  {
    hide Covers, Spanned;
    var own := Relabel(Split(h, p, n).own, p + h.size[p] - n, p);
    forall u: nat | u in h.own ensures u in own && own[u] == h.own[u] {
      RelabelAt(h, p, n, u);
    }
    assert own.Keys == h.own.Keys;
  }
}
