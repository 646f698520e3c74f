/** Sv39 page tables (kernel/vm.c, kernel/riscv.h) as trees of table pages over a pool of physical pages. */
module VmSpec {
  import opened Blocks
  import opened Counting

  const PGSIZE := 4096
  const ENTRIES := 512
  const MAXPAGES := 0x400_0000  // MAXVA / PGSIZE

  const PTE_V := 1
  const PTE_R := 2
  const PTE_W := 4
  const PTE_X := 8
  const PTE_U := 16

  // ---- page table entries

  predicate Valid(pte: nat) {
    pte % 2 == 1
  }

  predicate Writable(pte: nat) {
    pte / 4 % 2 == 1
  }

  predicate User(pte: nat) {
    pte / 16 % 2 == 1
  }

  /** Neither readable, writable nor executable: an entry that points to a table. */
  predicate Interior(pte: nat) {
    pte / 2 % 8 == 0
  }

  /** The physical page number, PTE2PA(pte) / PGSIZE. */
  function Ppn(pte: nat): (p: nat) {
    pte / 1024
  }

  function Flags(pte: nat): (f: nat) {
    pte % 1024
  }

  /** PA2PTE(p * PGSIZE) | perm | PTE_V. */
  function MakePte(p: nat, perm: nat): (pte: nat)
    requires perm < 1024
  {
    1024 * p + if perm % 2 == 1 then perm else perm + 1
  }

  lemma {:induction false} FlagBits(p: nat, f: nat)
    requires f < 1024
    ensures (1024 * p + f) / 1024 == p && (1024 * p + f) % 1024 == f && (1024 * p + f) % 2 == f % 2
    ensures (1024 * p + f) / 2 == 512 * p + f / 2 && (1024 * p + f) / 4 == 256 * p + f / 4
            && (1024 * p + f) / 16 == 64 * p + f / 16
  {
  }

  lemma {:induction false} PteRoundTrip(p: nat, perm: nat)
    requires perm < 1024
    ensures Valid(MakePte(p, perm)) && Ppn(MakePte(p, perm)) == p
    ensures Flags(MakePte(p, perm)) == if perm % 2 == 1 then perm else perm + 1
  {
    FlagBits(p, if perm % 2 == 1 then perm else perm + 1);
  }

  lemma {:induction false} LowThree(q: nat, x: nat)
    ensures (8 * q + x) % 8 == x % 8
  {
    if q > 0 {
      LowThree(q - 1, x);
      OnceMore(8 * (q - 1) + x);
    }
  }

  lemma {:induction false} OnceMore(y: nat)
    ensures (y + 8) % 8 == y % 8
  {
  }

  lemma {:induction false} LowOne(q: nat, x: nat)
    ensures (2 * q + x) % 2 == x % 2
  {
  }

  lemma {:induction false} SetLowBit(f: nat)
    requires f % 2 == 0
    ensures (f + 1) / 2 == f / 2 && (f + 1) / 4 == f / 4 && (f + 1) / 16 == f / 16
  {
  }

  lemma {:induction false} PteFlags(p: nat, perm: nat)
    requires perm < 1024
    ensures Writable(MakePte(p, perm)) == Writable(perm) && User(MakePte(p, perm)) == User(perm)
    ensures Interior(MakePte(p, perm)) == Interior(perm)
  {
    if perm % 2 == 0 {
      SetLowBit(perm);
      FlagBits(p, perm + 1);
    } else {
      FlagBits(p, perm);
    }
    LowThree(64 * p, perm / 2);
    LowOne(128 * p, perm / 4);
    LowOne(32 * p, perm / 16);
  }

  /** The bits of an entry, written out: what the tests of the flags find is the bit that the constant names. */
  lemma {:induction false} PteBits(v: nat, r: nat, w: nat, x: nat, u: nat, rest: nat)
    requires v <= 1 && r <= 1 && w <= 1 && x <= 1 && u <= 1
    ensures var pte := v * PTE_V + r * PTE_R + w * PTE_W + x * PTE_X + u * PTE_U + 32 * rest;
            && (Valid(pte) <==> v == 1) && (Writable(pte) <==> w == 1) && (User(pte) <==> u == 1)
            && (Interior(pte) <==> r == w == x == 0)
  {
    var pte := v + 2 * r + 4 * w + 8 * x + 16 * u + 32 * rest;
    assert pte % 2 == v;
    assert pte / 2 == r + 2 * w + 4 * x + 8 * (u + 2 * rest);
    assert pte / 4 == w + 2 * (x + 2 * u + 4 * rest);
    assert pte / 16 == u + 2 * rest;
    LowThree(u + 2 * rest, r + 2 * w + 4 * x);
    LowOne(x + 2 * u + 4 * rest, w);
    LowOne(rest, u);
  }

  // ---- indices

  /** PX(level, va) for the address of page n. */
  function Px(level: nat, n: nat): (i: nat)
    requires level <= 2
    ensures i < ENTRIES
  {
    if level == 0 then n % ENTRIES else if level == 1 then n / ENTRIES % ENTRIES else n / (ENTRIES * ENTRIES) % ENTRIES
  }

  lemma {:induction false} PxSum(n: nat)
    requires n < MAXPAGES
    ensures n == ENTRIES * (ENTRIES * Px(2, n) + Px(1, n)) + Px(0, n)
  {
    var a := n / ENTRIES;
    var b := a / ENTRIES;
    assert n == ENTRIES * a + n % ENTRIES && a == ENTRIES * b + a % ENTRIES;
    assert n / (ENTRIES * ENTRIES) == b < ENTRIES;
  }

  /** Below MAXVA the three indices determine the page. */
  lemma {:induction false} PxInjective(m: nat, n: nat)
    requires m < MAXPAGES && n < MAXPAGES && forall level: nat :: level <= 2 ==> Px(level, m) == Px(level, n)
    ensures m == n
  {
    hide Px;
    PxSum(m);
    PxSum(n);
    assert Px(0, m) == Px(0, n) && Px(1, m) == Px(1, n) && Px(2, m) == Px(2, n);
  }

  // ---- memory

  type Table = t: seq<nat> | |t| == ENTRIES witness seq(ENTRIES, _ => 0)
  type Page = p: seq<Byte> | |p| == PGSIZE witness seq(PGSIZE, _ => 0)

  /** The free list, the pages used as tables, the pages holding user data, and the root table of each space. */
  datatype Mem = Mem(free: seq<nat>, tables: map<nat, Table>, data: map<nat, Page>, roots: map<nat, nat>)

  /** A place in the tree of space s: its root, the table for the 512 * 512 pages from 512 * 512 * i on, or the table
      for the 512 pages from 512 * j on. */
  datatype Pos = Top(s: nat) | Mid(s: nat, i: nat) | Low(s: nat, j: nat)

  function EntryOf(m: Mem, p: Option<nat>, i: nat): (pte: nat) {
    if p.Some? && p.value in m.tables && i < ENTRIES then m.tables[p.value][i] else 0
  }

  function Child(pte: nat): (p: Option<nat>) {
    if Valid(pte) then Some(Ppn(pte)) else None
  }

  /** The table page at a place, if the walk gets there. */
  function At(m: Mem, pos: Pos): (p: Option<nat>)
    decreases match pos case Top(_) => 0 case Mid(_, _) => 1 case Low(_, _) => 2
  {
    match pos
    case Top(s) => if s in m.roots then Some(m.roots[s]) else None
    case Mid(s, i) => Child(EntryOf(m, At(m, Top(s)), i))
    case Low(s, j) => Child(EntryOf(m, At(m, Mid(s, j / ENTRIES)), j % ENTRIES))
  }

  /** The entry for page n of space s; 0 where there is no table for it. */
  function Leaf(m: Mem, s: nat, n: nat): (pte: nat) {
    EntryOf(m, At(m, Low(s, n / ENTRIES)), n % ENTRIES)
  }

  // ---- the invariant

  ghost predicate TablesOk(m: Mem) {
    && (forall pos :: At(m, pos).Some? ==> At(m, pos).value in m.tables)
    && (forall pos: Pos, i :: !pos.Low? && At(m, pos).Some? && 0 <= i < ENTRIES && Valid(EntryOf(m, At(m, pos), i)) ==>
          Interior(EntryOf(m, At(m, pos), i)))
  }

  /** No table page is used in two places. */
  ghost predicate OneTree(m: Mem) {
    forall a, b :: At(m, a).Some? && At(m, a) == At(m, b) ==> a == b
  }

  /** No data page is mapped twice. */
  ghost predicate OneMapping(m: Mem) {
    forall s, n: nat, t, k: nat :: MapsTo(m, s, n, t, k) ==> s == t && n == k
  }

  ghost predicate MapsTo(m: Mem, s: nat, n: nat, t: nat, k: nat) {
    Valid(Leaf(m, s, n)) && Valid(Leaf(m, t, k)) && Ppn(Leaf(m, s, n)) == Ppn(Leaf(m, t, k))
      && Ppn(Leaf(m, s, n)) in m.data
  }

  /** Nothing maps a free page or a table page, and entries that map nothing are clear. */
  ghost predicate LeavesOk(m: Mem) {
    forall s, n: nat :: LeafOk(m, Leaf(m, s, n))
  }

  ghost predicate LeafOk(m: Mem, pte: nat) {
    if Valid(pte) then Ppn(pte) !in m.free && Ppn(pte) !in m.tables else pte == 0
  }

  /** Free pages, table pages and data pages are different pages, free ones are listed once. */
  ghost predicate PoolOk(m: Mem) {
    && NoRepeats(m.free) && m.tables.Keys !! m.data.Keys
    && (forall p :: p in m.free ==> p !in m.tables && p !in m.data)
  }

  ghost predicate Inv(m: Mem) {
    TablesOk(m) && OneTree(m) && OneMapping(m) && LeavesOk(m) && PoolOk(m)
  }

  ghost function Items(l: seq<nat>): (r: set<nat>) {
    set q | q in l
  }

  /** All pages the allocator has handed out as tables or data, or still has. */
  ghost function Pool(m: Mem): (r: set<nat>) {
    Items(m.free) + m.tables.Keys + m.data.Keys
  }

  // ---- what operations leave alone

  ghost predicate SameLeaves(m: Mem, r: Mem) {
    forall s, n: nat :: Leaf(r, s, n) == Leaf(m, s, n)
  }

  /** The tables are where they were. */
  ghost predicate SameTree(m: Mem, r: Mem) {
    forall a :: At(r, a) == At(m, a)
  }

  /** r differs from m exactly in the entry for page n of space s. */
  ghost predicate LeafSet(m: Mem, r: Mem, s: nat, n: nat, pte: nat) {
    forall t, k: nat :: Leaf(r, t, k) == if t == s && k == n then pte else Leaf(m, t, k)
  }

  // ---- adding a table

  function ZeroTable(): (t: Table) {
    NoEntries(ENTRIES)
  }

  function NoEntries(n: nat): (t: seq<nat>)
    ensures |t| == n && forall i :: 0 <= i < n ==> t[i] == 0
  {
    if n == 0 then [] else NoEntries(n - 1) + [0]
  }

  function Below(pos: Pos, i: nat): (r: Pos)
    requires !pos.Low?
  {
    match pos
    case Top(s) => Mid(s, i)
    case Mid(s, k) => Low(s, ENTRIES * k + i)
  }

  /** The first free page becomes the table under entry i of the table at pos. */
  function Extended(m: Mem, p: nat, i: nat): (r: Mem)
    requires m.free != [] && p in m.tables && i < ENTRIES
  {
    var q := m.free[0];
    m.(free := m.free[1..], tables := m.tables[p := m.tables[p][i := MakePte(q, 0)]][q := ZeroTable()])
  }

  ghost predicate CanExtend(m: Mem, pos: Pos, i: nat) {
    && TablesOk(m) && OneTree(m) && PoolOk(m) && !pos.Low? && At(m, pos).Some? && i < ENTRIES && m.free != []
    && At(m, pos).value in m.tables && !Valid(m.tables[At(m, pos).value][i])
  }

  lemma {:induction false} ExtendedEntry(m: Mem, pos: Pos, i: nat, a: Pos, k: nat)
    requires CanExtend(m, pos, i) && At(m, a).Some? && k < ENTRIES
    ensures EntryOf(Extended(m, At(m, pos).value, i), At(m, a), k) ==
            if a == pos && k == i then MakePte(m.free[0], 0) else EntryOf(m, At(m, a), k)
  {
    assert m.free[0] !in m.tables;
  }

  lemma {:induction false} NothingValid()
    ensures !Valid(0)
  {
  }

  lemma {:induction false} ExtendedAt(m: Mem, pos: Pos, i: nat, a: Pos)
    requires CanExtend(m, pos, i)
    ensures At(Extended(m, At(m, pos).value, i), a) == if a == Below(pos, i) then Some(m.free[0]) else At(m, a)
    decreases match a case Top(_) => 0 case Mid(_, _) => 1 case Low(_, _) => 2
  {
    hide Valid, Ppn, MakePte, Interior, PoolOk;
    PteRoundTrip(m.free[0], 0);
    NothingValid();
    match a {
      case Top(s) =>
      case Mid(s, k) =>
        ExtendedAt(m, pos, i, Top(s));
        if At(m, Top(s)).Some? && k < ENTRIES {
          ExtendedEntry(m, pos, i, Top(s), k);
        }
      case Low(s, j) =>
        ExtendedAt(m, pos, i, Mid(s, j / ENTRIES));
        if At(m, Mid(s, j / ENTRIES)).Some? {
          ExtendedEntry(m, pos, i, Mid(s, j / ENTRIES), j % ENTRIES);
        }
    }
  }

  lemma {:induction false} ExtendedLeaf(m: Mem, pos: Pos, i: nat, s: nat, n: nat)
    requires CanExtend(m, pos, i)
    ensures Leaf(Extended(m, At(m, pos).value, i), s, n) == Leaf(m, s, n)
  {
    hide At, EntryOf, Extended, CanExtend, MakePte;
    var low := Low(s, n / ENTRIES);
    ExtendedShape(m, pos, i, n % ENTRIES);
    ExtendedAt(m, pos, i, low);
    NoEntry(m, n % ENTRIES);
    if low == Below(pos, i) {
      NotYet(m, pos, i);
    } else if At(m, low).Some? {
      ExtendedEntry(m, pos, i, low, n % ENTRIES);
    } else {
      NoEntry(Extended(m, At(m, pos).value, i), n % ENTRIES);
    }
  }

  lemma {:induction false} NoEntry(m: Mem, k: nat)
    ensures EntryOf(m, None, k) == 0
  {
  }

  /** The new table is empty. */
  lemma {:induction false} ExtendedShape(m: Mem, pos: Pos, i: nat, k: nat)
    requires CanExtend(m, pos, i)
    ensures !pos.Low? && m.free != [] && At(m, pos).Some? && At(m, pos).value in m.tables && i < ENTRIES
    ensures EntryOf(Extended(m, At(m, pos).value, i), Some(m.free[0]), k) == 0
  {
    hide At, TablesOk, OneTree, PoolOk, Valid, MakePte;
  }

  lemma {:induction false} NotYet(m: Mem, pos: Pos, i: nat)
    requires CanExtend(m, pos, i)
    ensures At(m, Below(pos, i)) == None
  {
    hide TablesOk, OneTree, PoolOk, Valid, Ppn;
  }

  lemma {:induction false} ExtendedTree(m: Mem, pos: Pos, i: nat)
    requires CanExtend(m, pos, i)
    ensures OneTree(Extended(m, At(m, pos).value, i))
  {
    hide TablesOk, PoolOk, At, Extended;
    var r := Extended(m, At(m, pos).value, i);
    forall a, b | At(r, a).Some? && At(r, a) == At(r, b) ensures a == b {
      ExtendedAt(m, pos, i, a);
      ExtendedAt(m, pos, i, b);
      FreeNotInTree(m, a);
      FreeNotInTree(m, b);
    }
  }

  /** A free page is not in the tree. */
  lemma {:induction false} FreeNotInTree(m: Mem, a: Pos)
    requires TablesOk(m) && PoolOk(m) && m.free != []
    ensures At(m, a) != Some(m.free[0])
  {
    assert m.free[0] in m.free;
  }

  lemma {:induction false} ExtendedTables(m: Mem, pos: Pos, i: nat)
    requires CanExtend(m, pos, i)
    ensures TablesOk(Extended(m, At(m, pos).value, i))
  {
    hide At, Valid, MakePte, Interior, Ppn;
    var r := Extended(m, At(m, pos).value, i);
    PteFlags(m.free[0], 0);
    InteriorZero();
    NothingValid();
    forall a ensures At(r, a).Some? ==> At(r, a).value in r.tables {
      ExtendedAt(m, pos, i, a);
    }
    forall a: Pos, k | !a.Low? && At(r, a).Some? && 0 <= k < ENTRIES && Valid(EntryOf(r, At(r, a), k))
      ensures Interior(EntryOf(r, At(r, a), k))
    {
      ExtendedAt(m, pos, i, a);
      if a != Below(pos, i) {
        ExtendedEntry(m, pos, i, a, k);
      }
    }
  }

  lemma {:induction false} InteriorZero()
    ensures Interior(0)
  {
  }

  lemma {:induction false} ExtendedPool(m: Mem, p: nat, i: nat)
    requires PoolOk(m) && m.free != [] && p in m.tables && i < ENTRIES
    ensures PoolOk(Extended(m, p, i))
  {
    var r := Extended(m, p, i);
    assert r.tables.Keys == m.tables.Keys + {m.free[0]};
    assert m.free[0] in m.free;
    assert m.free == [m.free[0]] + m.free[1..];
  }

  /** A new table changes no mapping and keeps the invariant. */
  lemma {:induction false} ExtendedInv(m: Mem, pos: Pos, i: nat)
    requires Inv(m) && CanExtend(m, pos, i)
    ensures Inv(Extended(m, At(m, pos).value, i)) && SameLeaves(m, Extended(m, At(m, pos).value, i))
  {
    hide TablesOk, OneTree, PoolOk, At, Leaf, Extended, Valid, Ppn;
    ExtendedTree(m, pos, i);
    ExtendedTables(m, pos, i);
    ExtendedPool(m, At(m, pos).value, i);
    var r := Extended(m, At(m, pos).value, i);
    forall s, n: nat ensures Leaf(r, s, n) == Leaf(m, s, n) {
      ExtendedLeaf(m, pos, i, s, n);
    }
    ExtendedLeaves(m, At(m, pos).value, i);
  }

  lemma {:induction false} ExtendedLeaves(m: Mem, p: nat, i: nat)
    requires LeavesOk(m) && OneMapping(m) && m.free != [] && p in m.tables && i < ENTRIES
             && SameLeaves(m, Extended(m, p, i))
    ensures LeavesOk(Extended(m, p, i)) && OneMapping(Extended(m, p, i))
  {
    hide Valid, Ppn, Leaf;
    var r := Extended(m, p, i);
    forall s, n: nat ensures LeafOk(r, Leaf(r, s, n)) {
      assert Leaf(r, s, n) == Leaf(m, s, n) && LeafOk(m, Leaf(m, s, n));
      assert m.free[0] in m.free;
    }
    forall s, n: nat, t, k: nat | MapsTo(r, s, n, t, k) ensures s == t && n == k {
      assert MapsTo(m, s, n, t, k);
    }
  }

  // ---- writing an entry

  function Written(m: Mem, p: nat, i: nat, pte: nat): (r: Mem)
    requires p in m.tables && i < ENTRIES
  {
    m.(tables := m.tables[p := m.tables[p][i := pte]])
  }

  lemma {:induction false} WrittenAt(m: Mem, s: nat, j: nat, i: nat, pte: nat, a: Pos)
    requires OneTree(m) && At(m, Low(s, j)).Some? && At(m, Low(s, j)).value in m.tables && i < ENTRIES
    ensures At(Written(m, At(m, Low(s, j)).value, i, pte), a) == At(m, a)
    decreases match a case Top(_) => 0 case Mid(_, _) => 1 case Low(_, _) => 2
  {
    hide Valid, Ppn;
    match a {
      case Top(_) =>
      case Mid(t, k) =>
        WrittenAt(m, s, j, i, pte, Top(t));
      case Low(t, k) =>
        WrittenAt(m, s, j, i, pte, Mid(t, k / ENTRIES));
    }
  }

  lemma {:induction false} WrittenLeaf(m: Mem, s: nat, n: nat, pte: nat, t: nat, k: nat)
    requires OneTree(m) && At(m, Low(s, n / ENTRIES)).Some? && At(m, Low(s, n / ENTRIES)).value in m.tables
    ensures Leaf(Written(m, At(m, Low(s, n / ENTRIES)).value, n % ENTRIES, pte), t, k) ==
            if t == s && k == n then pte else Leaf(m, t, k)
  {
    hide Valid, Ppn;
    WrittenAt(m, s, n / ENTRIES, n % ENTRIES, pte, Low(t, k / ENTRIES));
  }

  lemma {:induction false} WrittenTables(m: Mem, s: nat, j: nat, i: nat, pte: nat)
    requires OneTree(m) && TablesOk(m) && At(m, Low(s, j)).Some? && i < ENTRIES
    ensures OneTree(Written(m, At(m, Low(s, j)).value, i, pte)) && TablesOk(Written(m, At(m, Low(s, j)).value, i, pte))
  {
    hide At, Valid, Interior, Ppn;
    var r := Written(m, At(m, Low(s, j)).value, i, pte);
    forall a ensures At(r, a) == At(m, a) {
      WrittenAt(m, s, j, i, pte, a);
    }
    forall a: Pos, k | !a.Low? && At(r, a).Some? && 0 <= k < ENTRIES && Valid(EntryOf(r, At(r, a), k))
      ensures Interior(EntryOf(r, At(r, a), k))
    {
      assert At(m, a) != At(m, Low(s, j));
      assert EntryOf(r, At(r, a), k) == EntryOf(m, At(m, a), k);
    }
  }

  /** The entry is clear, or maps a page that is not free, not a table, and if it is a data page not mapped
      elsewhere. */
  ghost predicate CanMap(m: Mem, s: nat, n: nat, pte: nat) {
    && LeafOk(m, pte)
    && (Valid(pte) ==>
          forall t, k: nat :: Ppn(pte) in m.data && Valid(Leaf(m, t, k)) && Ppn(Leaf(m, t, k)) == Ppn(pte) ==>
            t == s && k == n)
  }

  /** Writing the entry of a page changes that mapping only. */
  lemma {:induction false} WrittenInv(m: Mem, s: nat, n: nat, pte: nat)
    requires Inv(m) && At(m, Low(s, n / ENTRIES)).Some? && CanMap(m, s, n, pte)
    ensures At(m, Low(s, n / ENTRIES)).value in m.tables
    ensures var r := Written(m, At(m, Low(s, n / ENTRIES)).value, n % ENTRIES, pte);
            Inv(r) && LeafSet(m, r, s, n, pte) && SameTree(m, r)
  {
    hide At, Leaf, Valid, Ppn;
    var r := Written(m, At(m, Low(s, n / ENTRIES)).value, n % ENTRIES, pte);
    WrittenTables(m, s, n / ENTRIES, n % ENTRIES, pte);
    forall a ensures At(r, a) == At(m, a) {
      WrittenAt(m, s, n / ENTRIES, n % ENTRIES, pte, a);
    }
    forall t, k: nat ensures Leaf(r, t, k) == if t == s && k == n then pte else Leaf(m, t, k) {
      WrittenLeaf(m, s, n, pte, t, k);
    }
    assert r.tables.Keys == m.tables.Keys;
    WrittenLeaves(m, r, s, n, pte);
  }

  lemma {:induction false} WrittenLeaves(m: Mem, r: Mem, s: nat, n: nat, pte: nat)
    requires LeafSet(m, r, s, n, pte) && LeavesOk(m) && OneMapping(m) && CanMap(m, s, n, pte)
    requires r.free == m.free && r.data == m.data && r.tables.Keys == m.tables.Keys
    ensures LeavesOk(r) && OneMapping(r)
  {
    hide Valid, Ppn, Leaf;
    forall t, k: nat ensures LeafOk(r, Leaf(r, t, k)) {
      assert LeafOk(m, Leaf(m, t, k));
    }
    forall t, k: nat, u, l: nat | MapsTo(r, t, k, u, l) ensures t == u && k == l {
      assert Leaf(r, t, k) == if t == s && k == n then pte else Leaf(m, t, k);
      assert Leaf(r, u, l) == if u == s && l == n then pte else Leaf(m, u, l);
      if !(t == s && k == n) && !(u == s && l == n) {
        assert MapsTo(m, t, k, u, l);
      }
    }
  }

  // ---- data pages

  /** The first free page becomes a data page holding these bytes. */
  function Grabbed(m: Mem, page: Page): (r: Mem)
    requires m.free != []
  {
    m.(free := m.free[1..], data := m.data[m.free[0] := page])
  }

  /** Only the free list and the data pages differ. */
  ghost predicate SameTables(m: Mem, r: Mem) {
    r.tables == m.tables && r.roots == m.roots
  }

  lemma {:induction false} SameTablesAt(m: Mem, r: Mem, a: Pos)
    requires SameTables(m, r)
    ensures At(r, a) == At(m, a)
    decreases match a case Top(_) => 0 case Mid(_, _) => 1 case Low(_, _) => 2
  {
    match a {
      case Top(_) =>
      case Mid(s, _) => SameTablesAt(m, r, Top(s));
      case Low(s, j) => SameTablesAt(m, r, Mid(s, j / ENTRIES));
    }
  }

  lemma {:induction false} SameTablesTree(m: Mem, r: Mem)
    requires SameTables(m, r) && TablesOk(m) && OneTree(m)
    ensures TablesOk(r) && OneTree(r) && SameLeaves(m, r)
  {
    hide At, Valid, Interior;
    forall a ensures At(r, a) == At(m, a) {
      SameTablesAt(m, r, a);
    }
    forall p, i ensures EntryOf(r, p, i) == EntryOf(m, p, i) {
    }
  }

  ghost predicate NotMapped(m: Mem, p: nat) {
    forall s, n: nat :: Valid(Leaf(m, s, n)) ==> Ppn(Leaf(m, s, n)) != p
  }

  lemma {:induction false} FreeNotMapped(m: Mem)
    requires LeavesOk(m) && m.free != []
    ensures NotMapped(m, m.free[0])
  {
    assert m.free[0] in m.free;
    assert forall s, n: nat :: LeafOk(m, Leaf(m, s, n));
  }

  lemma {:induction false} GrabbedPool(m: Mem, page: Page)
    requires PoolOk(m) && m.free != []
    ensures PoolOk(Grabbed(m, page))
  {
    assert Grabbed(m, page).data.Keys == m.data.Keys + {m.free[0]};
    assert m.free[0] in m.free;
    assert m.free == [m.free[0]] + m.free[1..];
  }

  /** Data pages come and go without a mapping being affected as long as they are not mapped. */
  lemma {:induction false} DataLeaves(m: Mem, r: Mem, p: nat)
    requires LeavesOk(m) && OneMapping(m) && SameLeaves(m, r) && NotMapped(m, p) && r.tables == m.tables
    requires forall q :: q != p ==> (q in r.data <==> q in m.data) && (q in r.free ==> q in m.free)
    ensures LeavesOk(r) && OneMapping(r) && NotMapped(r, p)
  {
    hide Valid, Ppn, Leaf;
    forall s, n: nat ensures LeafOk(r, Leaf(r, s, n)) && (Valid(Leaf(r, s, n)) ==> Ppn(Leaf(r, s, n)) != p) {
      assert Leaf(r, s, n) == Leaf(m, s, n) && LeafOk(m, Leaf(m, s, n));
    }
    forall s, n: nat, t, k: nat | MapsTo(r, s, n, t, k) ensures s == t && n == k {
      assert Leaf(r, s, n) == Leaf(m, s, n) && Leaf(r, t, k) == Leaf(m, t, k);
      assert MapsTo(m, s, n, t, k);
    }
  }

  lemma {:induction false} GrabbedInv(m: Mem, page: Page)
    requires Inv(m) && m.free != []
    ensures Inv(Grabbed(m, page)) && SameLeaves(m, Grabbed(m, page)) && NotMapped(Grabbed(m, page), m.free[0])
  {
    hide TablesOk, OneTree, OneMapping, LeavesOk, SameLeaves, NotMapped, PoolOk;
    SameTablesTree(m, Grabbed(m, page));
    FreeNotMapped(m);
    GrabbedPool(m, page);
    assert forall q :: q in m.free[1..] ==> q in m.free;
    DataLeaves(m, Grabbed(m, page), m.free[0]);
  }

  /** A data page that nothing maps goes back to the free list. */
  function Released(m: Mem, p: nat): (r: Mem) {
    m.(free := [p] + m.free, data := m.data - {p})
  }

  lemma {:induction false} ReleasedPool(m: Mem, p: nat)
    requires PoolOk(m) && p in m.data
    ensures PoolOk(Released(m, p))
  {
    assert p !in m.free;
  }

  lemma {:induction false} ReleasedInv(m: Mem, p: nat)
    requires Inv(m) && p in m.data && NotMapped(m, p)
    ensures Inv(Released(m, p)) && SameLeaves(m, Released(m, p))
  {
    hide TablesOk, OneTree, OneMapping, LeavesOk, SameLeaves, NotMapped, PoolOk;
    SameTablesTree(m, Released(m, p));
    ReleasedPool(m, p);
    assert forall q :: q in [p] + m.free <==> q == p || q in m.free;
    DataLeaves(m, Released(m, p), p);
  }

  /** Other bytes in a data page. */
  function Changed(m: Mem, p: nat, page: Page): (r: Mem) {
    m.(data := m.data[p := page])
  }

  lemma {:induction false} ChangedInv(m: Mem, p: nat, page: Page)
    requires Inv(m) && p in m.data
    ensures Inv(Changed(m, p, page)) && SameLeaves(m, Changed(m, p, page))
  {
    hide TablesOk, OneTree;
    SameTablesTree(m, Changed(m, p, page));
    assert Changed(m, p, page).data.Keys == m.data.Keys;
    ChangedLeaves(m, p, page);
  }

  lemma {:induction false} ChangedLeaves(m: Mem, p: nat, page: Page)
    requires LeavesOk(m) && OneMapping(m) && p in m.data && SameLeaves(m, Changed(m, p, page))
    ensures LeavesOk(Changed(m, p, page)) && OneMapping(Changed(m, p, page))
  {
    hide Valid, Ppn, Leaf;
    var r := Changed(m, p, page);
    forall s, n: nat ensures LeafOk(r, Leaf(r, s, n)) {
      assert LeafOk(m, Leaf(m, s, n));
    }
    forall s, n: nat, t, k: nat | MapsTo(r, s, n, t, k) ensures s == t && n == k {
      assert MapsTo(m, s, n, t, k);
    }
  }

  // ---- conservation of pages

  lemma {:induction false} ExtendedPoolSet(m: Mem, p: nat, i: nat)
    requires m.free != [] && p in m.tables && i < ENTRIES
    ensures Pool(Extended(m, p, i)) == Pool(m)
  {
    var r := Extended(m, p, i);
    assert m.free == [m.free[0]] + m.free[1..];
    assert (set x | x in m.free) == (set x | x in r.free) + {m.free[0]};
  }

  lemma {:induction false} GrabbedPoolSet(m: Mem, page: Page)
    requires m.free != []
    ensures Pool(Grabbed(m, page)) == Pool(m)
  {
    assert m.free == [m.free[0]] + m.free[1..];
    assert (set x | x in m.free) == (set x | x in m.free[1..]) + {m.free[0]};
  }

  lemma {:induction false} ReleasedPoolSet(m: Mem, p: nat)
    requires p in m.data
    ensures Pool(Released(m, p)) == Pool(m)
  {
    assert (set x | x in [p] + m.free) == (set x | x in m.free) + {p};
  }

  lemma {:induction false} SamePoolSet(m: Mem, r: Mem)
    requires r.free == m.free && r.tables.Keys == m.tables.Keys && r.data.Keys == m.data.Keys
    ensures Pool(r) == Pool(m)
  {
  }
}
