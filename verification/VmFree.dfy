/** Freeing a whole address space: freewalk and uvmfree of kernel/vm.c. */
module VmFree {
  import opened Blocks
  import opened Counting
  import opened VmSpec
  import opened PageTable
  import opened UserMemory

  // ---- the pages of a subtree

  predicate Beneath(a: Pos, pos: Pos) {
    a.s == pos.s &&
    match pos
    case Top(_) => true
    case Mid(_, i) => a == pos || (a.Low? && a.j / ENTRIES == i)
    case Low(_, _) => a == pos
  }

  ghost predicate UsedUnder(m: Mem, pos: Pos, q: nat) {
    exists a :: Beneath(a, pos) && At(m, a) == Some(q)
  }

  /** The table pages at pos and below. */
  ghost function Under(m: Mem, pos: Pos): (r: set<nat>) {
    set q | q in m.tables && UsedUnder(m, pos, q)
  }

  /** Those below the first k entries of the table at pos. */
  ghost function UnderFirst(m: Mem, pos: Pos, k: nat): (r: set<nat>)
    requires k <= ENTRIES
  {
    if k == 0 || pos.Low? then {} else UnderFirst(m, pos, k - 1) + Under(m, Below(pos, k - 1))
  }

  lemma {:induction false} BelowBeneath(pos: Pos, i: nat, a: Pos)
    requires !pos.Low? && i < ENTRIES && Beneath(a, Below(pos, i))
    ensures Beneath(a, pos) && a != pos
  {
  }

  /** What is beneath pos is pos itself or beneath one of its entries. */
  lemma {:induction false} BeneathSome(m: Mem, pos: Pos, a: Pos) returns (i: nat)
    requires !pos.Low? && Beneath(a, pos) && a != pos && At(m, a).Some? && (pos.Top? || pos.i < ENTRIES)
    ensures i < ENTRIES && Beneath(a, Below(pos, i))
  {
    i := if a.Mid? then a.i else if pos.Top? then a.j / ENTRIES else a.j % ENTRIES;
    NothingValid();
  }

  lemma {:induction false} UnderFirstHas(m: Mem, pos: Pos, k: nat, q: nat)
    requires k <= ENTRIES && !pos.Low?
    ensures q in UnderFirst(m, pos, k) <==> exists i: nat :: i < k && q in Under(m, Below(pos, i))
  {
    hide Under;
    if k > 0 {
      UnderFirstHas(m, pos, k - 1, q);
    }
  }

  /** The pages at pos and below are its own table and those below its entries. */
  lemma {:induction false} UnderSplit(m: Mem, pos: Pos, q: nat)
    requires TablesOk(m) && !pos.Low? && (pos.Top? || pos.i < ENTRIES)
    ensures q in Under(m, pos) <==> At(m, pos) == Some(q) || q in UnderFirst(m, pos, ENTRIES)
  {
    hide At, UnderFirst;
    UnderFirstHas(m, pos, ENTRIES, q);
    if q in Under(m, pos) && At(m, pos) != Some(q) {
      var a :| Beneath(a, pos) && At(m, a) == Some(q);
      var i := BeneathSome(m, pos, a);
      assert q in Under(m, Below(pos, i));
    }
    if q in UnderFirst(m, pos, ENTRIES) {
      var i: nat :| i < ENTRIES && q in Under(m, Below(pos, i));
      var a :| Beneath(a, Below(pos, i)) && At(m, a) == Some(q);
      BelowBeneath(pos, i, a);
    }
    if At(m, pos) == Some(q) {
      assert Beneath(pos, pos);
    }
  }

  lemma {:induction false} BelowApart(pos: Pos, i: nat, k: nat, a: Pos)
    requires !pos.Low? && i < ENTRIES && k < ENTRIES && Beneath(a, Below(pos, i)) && Beneath(a, Below(pos, k))
    ensures i == k
  {
  }

  /** Subtrees under different entries share no page, and none is the table itself. */
  lemma {:induction false} SubtreesApart(m: Mem, pos: Pos, i: nat, q: nat)
    requires OneTree(m) && !pos.Low? && i < ENTRIES && q in Under(m, Below(pos, i))
    ensures q !in UnderFirst(m, pos, i) && At(m, pos) != Some(q)
  {
    hide At, UnderFirst, Below;
    var a :| Beneath(a, Below(pos, i)) && At(m, a) == Some(q);
    BelowBeneath(pos, i, a);
    UnderFirstHas(m, pos, i, q);
    forall k: nat | k < i ensures q !in Under(m, Below(pos, k)) {
      NotUnderBoth(m, pos, i, k, q, a);
    }
  }

  lemma {:induction false} NotUnderBoth(m: Mem, pos: Pos, i: nat, k: nat, q: nat, a: Pos)
    requires OneTree(m) && !pos.Low? && i < ENTRIES && k < i && Beneath(a, Below(pos, i)) && At(m, a) == Some(q)
    ensures q !in Under(m, Below(pos, k))
  {
    hide At;
    forall b | Beneath(b, Below(pos, k)) ensures At(m, b) != Some(q) {
      if b == a {
        BelowApart(pos, i, k, a);
      }
    }
  }

  /** An entry that is not valid has nothing under it. */
  lemma {:induction false} NothingUnder(m: Mem, pos: Pos, i: nat)
    requires !pos.Low? && i < ENTRIES && At(m, Below(pos, i)) == None
    ensures Under(m, Below(pos, i)) == {}
  {
    NothingValid();
    forall a | Beneath(a, Below(pos, i)) ensures At(m, a) == None {
      if a != Below(pos, i) {
        assert At(m, Mid(a.s, a.j / ENTRIES)) == None;
      }
    }
  }

  // ---- freewalk

  function Height(pos: Pos): (h: nat) {
    match pos case Top(_) => 2 case Mid(_, _) => 1 case Low(_, _) => 0
  }

  /** The pages of the subtree at pos are in use as they were in m. */
  ghost predicate Intact(m: Mem, pos: Pos, free: seq<nat>, tables: map<nat, Table>) {
    forall q :: q in Under(m, pos) ==> q in tables && tables[q] == m.tables[q] && q !in free
  }

  /** From one free list and set of tables to another, exactly the pages in gone were freed, each once. */
  ghost predicate Returned(free: seq<nat>, tables: map<nat, Table>, free2: seq<nat>, tables2: map<nat, Table>,
                           gone: set<nat>) {
    && NoRepeats(free2) && Items(free2) == Items(free) + gone && tables2.Keys == tables.Keys - gone
  }

  ghost predicate NoLeaves(m: Mem, s: nat) {
    forall n: nat :: !Valid(Leaf(m, s, n))
  }

  /** The table freewalk is at, when its first i entries are done. */
  ghost predicate Walking(m: Mem, pos: Pos, p: nat, i: nat, free: seq<nat>, tables: map<nat, Table>, free2: seq<nat>,
                          tables2: map<nat, Table>)
    requires i <= ENTRIES
  {
    && Returned(free, tables, free2, tables2, UnderFirst(m, pos, i))
    && (forall q :: q in tables2 && q != p ==> q in tables && tables2[q] == tables[q])
    && p in m.tables && p in tables2 && (forall k :: i <= k < ENTRIES ==> tables2[p][k] == m.tables[p][k])
  }

  /** The subtree under entry i has not been touched yet. */
  lemma {:induction false} ChildIntact(m: Mem, pos: Pos, p: nat, i: nat, free: seq<nat>, tables: map<nat, Table>,
                                       free2: seq<nat>, tables2: map<nat, Table>)
    requires TablesOk(m) && OneTree(m) && !pos.Low? && (pos.Top? || pos.i < ENTRIES) && At(m, pos) == Some(p)
             && i < ENTRIES
    requires Intact(m, pos, free, tables) && Walking(m, pos, p, i, free, tables, free2, tables2)
    ensures Intact(m, Below(pos, i), free2, tables2)
  {
    hide At, UnderFirst, Below, NoRepeats;
    forall q | q in Under(m, Below(pos, i)) ensures q in tables2 && tables2[q] == m.tables[q] && q !in free2 {
      SubtreesApart(m, pos, i, q);
      UnderFirstHas(m, pos, ENTRIES, q);
      UnderSplit(m, pos, q);
      assert q in tables && q !in free;
      assert q in free2 ==> q in Items(free2);
      assert q in Items(free) ==> q in free;
    }
  }

  /** Freeing the subtree under entry i and clearing the entry moves the walk on. */
  lemma {:induction false} WalkedChild(m: Mem, pos: Pos, p: nat, i: nat, free: seq<nat>, tables: map<nat, Table>,
                    free2: seq<nat>, tables2: map<nat, Table>, free3: seq<nat>, tables3: map<nat, Table>)
    requires OneTree(m) && !pos.Low? && At(m, pos) == Some(p) && i < ENTRIES
    requires Walking(m, pos, p, i, free, tables, free2, tables2)
    requires Returned(free2, tables2, free3, tables3, Under(m, Below(pos, i)))
    requires forall q :: q in tables3 ==> q in tables2 && tables3[q] == tables2[q]
    ensures p in tables3 && Walking(m, pos, p, i + 1, free, tables, free3, tables3[p := tables3[p][i := 0]])
  {
    hide At, Below, NoRepeats, Under, OneTree;
    if p in Under(m, Below(pos, i)) {
      SubtreesApart(m, pos, i, p);
    }
    assert p in tables2.Keys - Under(m, Below(pos, i));
    assert tables3.Keys == tables.Keys - UnderFirst(m, pos, i + 1);
    var tables4 := tables3[p := tables3[p][i := 0]];
    assert tables4.Keys == tables3.Keys;
    assert UnderFirst(m, pos, i + 1) == UnderFirst(m, pos, i) + Under(m, Below(pos, i));
    assert Items(free) + UnderFirst(m, pos, i) + Under(m, Below(pos, i)) == Items(free) + UnderFirst(m, pos, i + 1);
  }

  lemma {:induction false} WalkedEmpty(m: Mem, pos: Pos, p: nat, i: nat, free: seq<nat>, tables: map<nat, Table>,
                                       free2: seq<nat>, tables2: map<nat, Table>)
    requires !pos.Low? && i < ENTRIES && At(m, Below(pos, i)) == None
             && Walking(m, pos, p, i, free, tables, free2, tables2)
    ensures Walking(m, pos, p, i + 1, free, tables, free2, tables2)
  {
    hide At, NoRepeats, Under;
    NothingUnder(m, pos, i);
    assert UnderFirst(m, pos, i + 1) == UnderFirst(m, pos, i);
  }

  /** After all entries the table itself goes. */
  lemma {:induction false} WalkedAll(m: Mem, pos: Pos, p: nat, free: seq<nat>, tables: map<nat, Table>, free2: seq<nat>,
                                     tables2: map<nat, Table>)
    requires TablesOk(m) && OneTree(m) && (pos.Mid? ==> pos.i < ENTRIES) && At(m, pos) == Some(p)
    requires Intact(m, pos, free, tables) && Walking(m, pos, p, ENTRIES, free, tables, free2, tables2)
    ensures Returned(free, tables, [p] + free2, tables2 - {p}, Under(m, pos))
    ensures forall q :: q in tables2 - {p} ==> q in tables && (tables2 - {p})[q] == tables[q]
  {
    hide At, OneTree;
    assert Beneath(pos, pos);
    assert p in Under(m, pos);
    forall q ensures q in Under(m, pos) <==> q == p || q in UnderFirst(m, pos, ENTRIES) {
      if pos.Low? {
        LowAlone(m, pos, q);
      } else {
        UnderSplit(m, pos, q);
      }
    }
    assert p !in free2 by {
      NotFreed(m, pos, p, free, free2, tables, tables2);
    }
    assert Items([p] + free2) == Items(free2) + {p};
    assert Under(m, pos) == UnderFirst(m, pos, ENTRIES) + {p};
    assert (tables2 - {p}).Keys == tables.Keys - Under(m, pos);
    assert Items(free) + UnderFirst(m, pos, ENTRIES) + {p} == Items(free) + Under(m, pos);
  }

  lemma {:induction false} LowAlone(m: Mem, pos: Pos, q: nat)
    requires pos.Low? && TablesOk(m)
    ensures q in Under(m, pos) <==> At(m, pos) == Some(q)
    ensures UnderFirst(m, pos, ENTRIES) == {}
  {
    hide At;
    assert Beneath(pos, pos);
  }

  lemma {:induction false} NotFreed(m: Mem, pos: Pos, p: nat, free: seq<nat>, free2: seq<nat>, tables: map<nat, Table>,
                                    tables2: map<nat, Table>)
    requires TablesOk(m) && OneTree(m) && (pos.Mid? ==> pos.i < ENTRIES) && At(m, pos) == Some(p) && p in Under(m, pos)
    requires Intact(m, pos, free, tables) && Walking(m, pos, p, ENTRIES, free, tables, free2, tables2)
    ensures p !in free2
  {
    hide At, NoRepeats, Under, UnderFirst;
    assert p in tables2.Keys;
    assert p in free2 ==> p in Items(free2);
    assert p in Items(free) ==> p in free;
  }

  lemma {:induction false} WalkStart(m: Mem, pos: Pos, p: nat, free: seq<nat>, tables: map<nat, Table>)
    requires TablesOk(m) && At(m, pos) == Some(p) && Intact(m, pos, free, tables) && NoRepeats(free)
    ensures Walking(m, pos, p, 0, free, tables, free, tables)
  {
    hide At, NoRepeats;
    assert Beneath(pos, pos);
    assert p in Under(m, pos);
  }

  /** An entry freewalk comes to: in the lowest tables none is valid, above them a valid one leads to a table. */
  lemma {:induction false} EntryKind(m: Mem, pos: Pos, p: nat, i: nat)
    requires TablesOk(m) && At(m, pos) == Some(p) && NoLeaves(m, pos.s) && i < ENTRIES && (pos.Mid? ==> pos.i < ENTRIES)
    ensures p in m.tables && (Valid(m.tables[p][i]) ==> !pos.Low? && Interior(m.tables[p][i]))
    ensures !pos.Low? ==> At(m, Below(pos, i)) == Child(m.tables[p][i])
  {
    hide Interior;
    if pos.Low? {
      assert Leaf(m, pos.s, ENTRIES * pos.j + i) == m.tables[p][i] by {
        assert (ENTRIES * pos.j + i) / ENTRIES == pos.j && (ENTRIES * pos.j + i) % ENTRIES == i;
      }
    } else {
      assert EntryOf(m, At(m, pos), i) == m.tables[p][i];
    }
  }

  /** freewalk: on a tree without mappings every table page goes back to the free list once, and there is no panic. */
  method Freewalk(vm: Vm, p: nat, ghost m: Mem, ghost pos: Pos) returns (panicked: bool)
    requires TablesOk(m) && OneTree(m) && At(m, pos) == Some(p) && (pos.Mid? ==> pos.i < ENTRIES)
    requires NoLeaves(m, pos.s) && Intact(m, pos, vm.free, vm.tables) && NoRepeats(vm.free)
    modifies vm`free, vm`tables
    ensures !panicked && Returned(old(vm.free), old(vm.tables), vm.free, vm.tables, Under(m, pos))
    ensures forall q :: q in vm.tables ==> q in old(vm.tables) && vm.tables[q] == old(vm.tables)[q]
    decreases Height(pos)
  {
    hide TablesOk, OneTree, At, Intact, NoRepeats, Under, Walking, Returned, Valid, Ppn, Interior, NoLeaves, UnderFirst;
    WalkStart(m, pos, p, vm.free, vm.tables);
    var i: nat := 0;
    while i < ENTRIES
      invariant i <= ENTRIES && Walking(m, pos, p, i, old(vm.free), old(vm.tables), vm.free, vm.tables)
    {
      WalkingAt(m, pos, p, i, old(vm.free), old(vm.tables), vm.free, vm.tables);
      EntryKind(m, pos, p, i);
      var pte := vm.tables[p][i];
      if Valid(pte) && Interior(pte) {
        ghost var free2, tables2 := vm.free, vm.tables;
        ChildIntact(m, pos, p, i, old(vm.free), old(vm.tables), free2, tables2);
        panicked := Freewalk(vm, Ppn(pte), m, Below(pos, i));
        WalkedChild(m, pos, p, i, old(vm.free), old(vm.tables), free2, tables2, vm.free, vm.tables);
        vm.tables := vm.tables[p := vm.tables[p][i := 0]];
      } else if Valid(pte) {
        return true;
      } else if !pos.Low? {
        WalkedEmpty(m, pos, p, i, old(vm.free), old(vm.tables), vm.free, vm.tables);
      } else {
        WalkedLow(m, pos, p, i, old(vm.free), old(vm.tables), vm.free, vm.tables);
      }
      i := i + 1;
    }
    WalkedAll(m, pos, p, old(vm.free), old(vm.tables), vm.free, vm.tables);
    vm.free := [p] + vm.free;
    vm.tables := vm.tables - {p};
    panicked := false;
  }

  lemma {:induction false} WalkedLow(m: Mem, pos: Pos, p: nat, i: nat, free: seq<nat>, tables: map<nat, Table>,
                                     free2: seq<nat>, tables2: map<nat, Table>)
    requires pos.Low? && i < ENTRIES && Walking(m, pos, p, i, free, tables, free2, tables2)
    ensures Walking(m, pos, p, i + 1, free, tables, free2, tables2)
  {
    hide NoRepeats;
  }

  lemma {:induction false} WalkingAt(m: Mem, pos: Pos, p: nat, i: nat, free: seq<nat>, tables: map<nat, Table>,
                                     free2: seq<nat>, tables2: map<nat, Table>)
    requires i < ENTRIES && Walking(m, pos, p, i, free, tables, free2, tables2)
    ensures p in tables2 && p in m.tables && tables2[p][i] == m.tables[p][i] && NoRepeats(free2)
  {
  }

  // ---- a space removed

  /** m without space s and its tables, whose pages are in free2. */
  function Dropped(m: Mem, s: nat, free2: seq<nat>, tables2: map<nat, Table>): (r: Mem) {
    Mem(free2, tables2, m.data, m.roots - {s})
  }

  ghost predicate WasFreed(m: Mem, s: nat, free2: seq<nat>, tables2: map<nat, Table>) {
    && Returned(m.free, m.tables, free2, tables2, Under(m, Top(s)))
    && (forall q :: q in tables2 ==> q in m.tables && tables2[q] == m.tables[q])
  }

  lemma {:induction false} OtherTable(m: Mem, s: nat, free2: seq<nat>, tables2: map<nat, Table>, a: Pos)
    requires TablesOk(m) && OneTree(m) && WasFreed(m, s, free2, tables2) && a.s != s && At(m, a).Some?
    ensures At(m, a).value in tables2 && tables2[At(m, a).value] == m.tables[At(m, a).value]
  {
    hide At, NoRepeats;
    var p := At(m, a).value;
    assert p !in Under(m, Top(s));
    assert p in m.tables.Keys - Under(m, Top(s));
  }

  lemma {:induction false} DroppedAt(m: Mem, s: nat, free2: seq<nat>, tables2: map<nat, Table>, a: Pos)
    requires TablesOk(m) && OneTree(m) && WasFreed(m, s, free2, tables2)
    ensures At(Dropped(m, s, free2, tables2), a) == if a.s == s then None else At(m, a)
    decreases Height(Top(0)) - Height(a)
  {
    hide Valid, Ppn, WasFreed, OneTree, TablesOk;
    NothingValid();
    match a {
      case Top(_) =>
      case Mid(t, i) =>
        DroppedAt(m, s, free2, tables2, Top(t));
        if t != s && At(m, Top(t)).Some? {
          OtherTable(m, s, free2, tables2, Top(t));
          InTablesOk(m, Top(t));
        }
      case Low(t, j) =>
        DroppedAt(m, s, free2, tables2, Mid(t, j / ENTRIES));
        if t != s && At(m, Mid(t, j / ENTRIES)).Some? {
          OtherTable(m, s, free2, tables2, Mid(t, j / ENTRIES));
          InTablesOk(m, Mid(t, j / ENTRIES));
        }
    }
  }

  lemma {:induction false} InTablesOk(m: Mem, a: Pos)
    requires TablesOk(m) && At(m, a).Some?
    ensures At(m, a).value in m.tables
  {
  }

  lemma {:induction false} DroppedLeaf(m: Mem, s: nat, free2: seq<nat>, tables2: map<nat, Table>, t: nat, n: nat)
    requires TablesOk(m) && OneTree(m) && WasFreed(m, s, free2, tables2)
    ensures Leaf(Dropped(m, s, free2, tables2), t, n) == if t == s then 0 else Leaf(m, t, n)
  {
    hide Valid, Ppn, WasFreed, OneTree, TablesOk, At;
    DroppedAt(m, s, free2, tables2, Low(t, n / ENTRIES));
    if t != s && At(m, Low(t, n / ENTRIES)).Some? {
      OtherTable(m, s, free2, tables2, Low(t, n / ENTRIES));
      InTablesOk(m, Low(t, n / ENTRIES));
    }
  }

  lemma {:induction false} DroppedTables(m: Mem, s: nat, free2: seq<nat>, tables2: map<nat, Table>)
    requires TablesOk(m) && OneTree(m) && WasFreed(m, s, free2, tables2)
    ensures TablesOk(Dropped(m, s, free2, tables2)) && OneTree(Dropped(m, s, free2, tables2))
  {
    hide Valid, Ppn, WasFreed, At, Interior;
    var r := Dropped(m, s, free2, tables2);
    forall a | At(r, a).Some?
      ensures a.s != s && At(r, a) == At(m, a) && At(m, a).value in tables2
              && tables2[At(m, a).value] == m.tables[At(m, a).value] {
      DroppedAt(m, s, free2, tables2, a);
      OtherTable(m, s, free2, tables2, a);
    }
    forall a: Pos, i | !a.Low? && At(r, a).Some? && 0 <= i < ENTRIES && Valid(EntryOf(r, At(r, a), i))
      ensures Interior(EntryOf(r, At(r, a), i))
    {
      assert EntryOf(r, At(r, a), i) == EntryOf(m, At(m, a), i);
    }
  }

  lemma {:induction false} DroppedPool(m: Mem, s: nat, free2: seq<nat>, tables2: map<nat, Table>)
    requires PoolOk(m) && WasFreed(m, s, free2, tables2)
    ensures PoolOk(Dropped(m, s, free2, tables2)) && Pool(Dropped(m, s, free2, tables2)) == Pool(m)
  {
    hide NoRepeats;
    var gone := Under(m, Top(s));
    assert tables2.Keys <= m.tables.Keys;
    forall p: nat | p in free2 ensures p !in tables2 && p !in m.data {
      assert p in Items(free2);
      assert p in Items(m.free) ==> p in m.free;
      assert p in gone ==> p in m.tables.Keys;
    }
    assert Items(m.free) + gone + (m.tables.Keys - gone) == Items(m.free) + m.tables.Keys;
  }

  lemma {:induction false} DroppedLeaves(m: Mem, s: nat, free2: seq<nat>, tables2: map<nat, Table>)
    requires Inv(m) && WasFreed(m, s, free2, tables2)
    ensures LeavesOk(Dropped(m, s, free2, tables2)) && OneMapping(Dropped(m, s, free2, tables2))
  {
    hide Valid, Ppn, Leaf, TablesOk, OneTree, NoRepeats;
    NothingValid();
    var r := Dropped(m, s, free2, tables2);
    forall t, n: nat ensures LeafOk(r, Leaf(r, t, n)) {
      DroppedLeaf(m, s, free2, tables2, t, n);
      assert LeafOk(m, Leaf(m, t, n));
      StillNotFree(m, s, free2, tables2, Ppn(Leaf(m, t, n)));
    }
    forall t, n: nat, u, k: nat | MapsTo(r, t, n, u, k) ensures t == u && n == k {
      DroppedLeaf(m, s, free2, tables2, t, n);
      DroppedLeaf(m, s, free2, tables2, u, k);
      assert MapsTo(m, t, n, u, k);
    }
  }

  lemma {:induction false} StillNotFree(m: Mem, s: nat, free2: seq<nat>, tables2: map<nat, Table>, q: nat)
    requires WasFreed(m, s, free2, tables2)
    ensures q !in m.free && q !in m.tables ==> q !in free2 && q !in tables2
  {
    hide NoRepeats;
    assert q in free2 ==> q in Items(free2);
    assert q in Items(m.free) ==> q in m.free;
    assert q in Under(m, Top(s)) ==> q in m.tables;
  }

  /** Removing an empty space keeps the invariant, the other spaces, and the set of all pages. */
  lemma {:induction false} DroppedInv(m: Mem, s: nat, free2: seq<nat>, tables2: map<nat, Table>)
    requires Inv(m) && WasFreed(m, s, free2, tables2)
    ensures Inv(Dropped(m, s, free2, tables2)) && Pool(Dropped(m, s, free2, tables2)) == Pool(m)
  {
    hide TablesOk, OneTree, LeavesOk, OneMapping, PoolOk, WasFreed, Pool;
    DroppedTables(m, s, free2, tables2);
    DroppedPool(m, s, free2, tables2);
    DroppedLeaves(m, s, free2, tables2);
  }

  // ---- uvmfree

  /** The space maps only data pages, all of them below page np. */
  ghost predicate OnlyBelow(m: Mem, s: nat, np: nat) {
    forall n: nat :: Valid(Leaf(m, s, n)) ==> n < np && Ppn(Leaf(m, s, n)) in m.data
  }

  /** uvmfree: every data page the space maps and every table page of it goes back to the free list once; the other
      spaces do not change, and freewalk does not meet a leaf. */
  method Uvmfree(vm: Vm, root: nat, sz: nat, ghost s: nat) returns (panicked: bool)
    requires Inv(vm.View()) && s in vm.roots && vm.roots[s] == root && PgUp(sz) <= MAXPAGES
             && OnlyBelow(vm.View(), s, PgUp(sz))
    modifies vm
    ensures !panicked && Inv(vm.View()) && vm.roots == old(vm.roots) - {s} && Pool(vm.View()) == old(Pool(vm.View()))
    ensures vm.data == old(vm.data) - Items(PagesOf(old(vm.View()), s, 0, PgUp(sz)))
    ensures vm.tables.Keys == old(vm.tables).Keys - Under(old(vm.View()), Top(s))
    ensures forall t, n: nat :: Leaf(vm.View(), t, n) == if t == s then 0 else Leaf(old(vm.View()), t, n)
  {
    hide Inv, Pool, Leaf, Valid, Ppn, PagesOf, Under, Unmapped, WasFreed, At;
    ghost var m := vm.View();
    UnmappedNone(m, s, 0, true);
    if sz > 0 {
      vm.Uvmunmap(root, 0, PgUp(sz), true, s);
    }
    ghost var w := vm.View();
    EmptySpace(m, w, s, PgUp(sz));
    panicked := Freewalk(vm, root, w, Top(s));
    FreedSpace(m, w, s, PgUp(sz), vm.free, vm.tables);
    DroppedInv(w, s, vm.free, vm.tables);
    vm.roots := vm.roots - {s};
    forall t, n: nat ensures Leaf(vm.View(), t, n) == if t == s then 0 else Leaf(m, t, n) {
      DroppedLeaf(w, s, vm.free, vm.tables, t, n);
    }
  }

  lemma {:induction false} EmptySpace(m: Mem, w: Mem, s: nat, np: nat)
    requires Inv(m) && s in m.roots && OnlyBelow(m, s, np) && Unmapped(m, w, s, 0, np, true)
    ensures TablesOk(w) && OneTree(w) && NoLeaves(w, s) && NoRepeats(w.free) && At(w, Top(s)) == Some(m.roots[s])
    ensures Intact(w, Top(s), w.free, w.tables) && Inv(w) && w.roots == m.roots && Pool(w) == Pool(m)
    ensures w.data == m.data - Items(PagesOf(m, s, 0, np)) && w.tables.Keys == m.tables.Keys
    ensures forall t, n: nat :: Leaf(w, t, n) == if t == s then 0 else Leaf(m, t, n)
  {
    hide Valid, Ppn, Leaf, LeavesOk, OneMapping, Interior;
    NothingValid();
    forall n: nat ensures Leaf(w, s, n) == 0 {
      if n >= np {
        InvalidIsClear(m, s, n);
      }
    }
  }

  lemma {:induction false} SameUnder(m: Mem, w: Mem, s: nat)
    requires SameTree(m, w) && w.tables.Keys == m.tables.Keys
    ensures Under(w, Top(s)) == Under(m, Top(s))
  {
    hide At;
    forall q: nat ensures UsedUnder(w, Top(s), q) <==> UsedUnder(m, Top(s), q) {
      forall a ensures At(w, a) == At(m, a) {
      }
    }
  }

  lemma {:induction false} FreedSpace(m: Mem, w: Mem, s: nat, np: nat, free2: seq<nat>, tables2: map<nat, Table>)
    requires Inv(m) && Unmapped(m, w, s, 0, np, true)
    requires Returned(w.free, w.tables, free2, tables2, Under(w, Top(s)))
    requires forall q :: q in tables2 ==> q in w.tables && tables2[q] == w.tables[q]
    ensures WasFreed(w, s, free2, tables2) && Under(w, Top(s)) == Under(m, Top(s))
            && tables2.Keys == m.tables.Keys - Under(m, Top(s))
  {
    hide Leaf, Valid, Ppn;
    SameUnder(m, w, s);
  }

  // ---- uvmcreate

  /** With only free pages the invariant holds. */
  lemma {:induction false} EmptyInv(free: seq<nat>)
    requires NoRepeats(free)
    ensures Inv(Mem(free, map[], map[], map[]))
  {
    var m := Mem(free, map[], map[], map[]);
    NothingValid();
    forall a ensures At(m, a) == None {
    }
  }

  /** The first free page becomes the root of a new space s. */
  function Created(m: Mem, s: nat): (r: Mem)
    requires m.free != []
  {
    m.(free := m.free[1..], tables := m.tables[m.free[0] := ZeroTable()], roots := m.roots[s := m.free[0]])
  }

  lemma {:induction false} CreatedAt(m: Mem, s: nat, a: Pos)
    requires TablesOk(m) && PoolOk(m) && m.free != [] && s !in m.roots
    ensures At(Created(m, s), a) == if a == Top(s) then Some(m.free[0]) else At(m, a)
    ensures a.s == s ==> At(m, a) == None
    decreases Height(Top(0)) - Height(a)
  {
    hide Valid, Ppn, NoRepeats;
    NothingValid();
    assert m.free[0] in m.free;
    match a {
      case Top(_) =>
      case Mid(t, i) => CreatedAt(m, s, Top(t));
      case Low(t, j) => CreatedAt(m, s, Mid(t, j / ENTRIES));
    }
  }

  lemma {:induction false} CreatedTables(m: Mem, s: nat)
    requires TablesOk(m) && OneTree(m) && PoolOk(m) && m.free != [] && s !in m.roots
    ensures TablesOk(Created(m, s)) && OneTree(Created(m, s)) && SameLeaves(m, Created(m, s))
  {
    hide Valid, Ppn, At, Interior, NoRepeats;
    var r := Created(m, s);
    assert m.free[0] in m.free;
    NothingValid();
    forall a ensures At(r, a) == (if a == Top(s) then Some(m.free[0]) else At(m, a))
      && (a.s == s ==> At(m, a) == None) {
      CreatedAt(m, s, a);
    }
    forall a: Pos, i | !a.Low? && At(r, a).Some? && 0 <= i < ENTRIES && Valid(EntryOf(r, At(r, a), i))
      ensures Interior(EntryOf(r, At(r, a), i))
    {
      assert a != Top(s) ==> EntryOf(r, At(r, a), i) == EntryOf(m, At(m, a), i);
    }
    forall t, n: nat ensures Leaf(r, t, n) == Leaf(m, t, n) {
      assert At(r, Low(t, n / ENTRIES)) == At(m, Low(t, n / ENTRIES));
    }
  }

  lemma {:induction false} CreatedInv(m: Mem, s: nat)
    requires Inv(m) && m.free != [] && s !in m.roots
    ensures Inv(Created(m, s)) && SameLeaves(m, Created(m, s)) && Pool(Created(m, s)) == Pool(m)
  {
    hide TablesOk, OneTree, Valid, Ppn, Leaf;
    var r := Created(m, s);
    CreatedTables(m, s);
    assert m.free == [m.free[0]] + m.free[1..];
    assert m.free[0] in m.free;
    assert r.tables.Keys == m.tables.Keys + {m.free[0]};
    assert Items(m.free) == Items(m.free[1..]) + {m.free[0]};
    forall t, n: nat ensures LeafOk(r, Leaf(r, t, n)) {
      assert LeafOk(m, Leaf(m, t, n));
    }
    forall t, n: nat, u, k: nat | MapsTo(r, t, n, u, k) ensures t == u && n == k {
      assert MapsTo(m, t, n, u, k);
    }
  }

  /** uvmcreate: a new space without mappings, or None when there is no free page. */
  method Uvmcreate(vm: Vm, ghost s: nat) returns (root: Option<nat>)
    requires Inv(vm.View()) && s !in vm.roots
    modifies vm
    ensures Inv(vm.View()) && SameLeaves(old(vm.View()), vm.View()) && vm.data == old(vm.data)
            && Pool(vm.View()) == old(Pool(vm.View()))
    ensures if root == None then vm.View() == old(vm.View()) else vm.roots == old(vm.roots)[s := root.value]
    ensures root == None <==> old(vm.free) == []
    ensures NoLeaves(vm.View(), s)
  {
    hide Inv, Pool, Leaf;
    ghost var m := vm.View();
    SameLeavesSelf(m);
    NoSpaceNoLeaf(m, s);
    root := vm.Kalloc();
    if root.Some? {
      CreatedInv(m, s);
      vm.tables := vm.tables[root.value := ZeroTable()];
      vm.roots := vm.roots[s := root.value];
      assert vm.View() == Created(m, s);
    }
  }

  lemma {:induction false} NoSpaceNoLeaf(m: Mem, s: nat)
    requires s !in m.roots
    ensures NoLeaves(m, s)
  {
    NothingValid();
    forall n: nat ensures Leaf(m, s, n) == 0 {
      assert At(m, Mid(s, n / ENTRIES / ENTRIES)) == None;
    }
  }
}
