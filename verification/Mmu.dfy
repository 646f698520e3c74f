/** What the hardware makes of the page tables: address translation as the Sv39 scheme of the RISC-V privileged
    architecture defines it, on bits and table pages alone. */
module Mmu {
  import opened Blocks
  import opened VmSpec
  import opened PageTable
  import opened UserMemory
  import opened LazyMemory

  /** Bit k of a number. */
  predicate Bit(x: nat, k: nat) {
    if k == 0 then x % 2 == 1 else Bit(x / 2, k - 1)
  }

  /** The nine bits of page number n that select the entry at a level. */
  function Vpn(n: nat, level: nat): (i: nat)
    requires level <= 2
    ensures i < 512
  {
    (if level == 0 then n else if level == 1 then n / 0x200 else n / 0x4_0000) % 512
  }

  /** The walk of the hardware from the table at physical page p: an entry without V is a fault, one with R or X is a
      leaf, any other names the next table. No leaves are used above the lowest level. */
  function Translate(m: Mem, p: nat, level: nat, n: nat): (pte: Option<nat>)
    requires level <= 2
    decreases level
  {
    if p !in m.tables then None
    else
      var e := m.tables[p][Vpn(n, level)];
      if !Bit(e, 0) then None
      else if Bit(e, 1) || Bit(e, 3) then (if level == 0 then Some(e) else None)
      else if level == 0 then None
      else Translate(m, e / 1024, level - 1, n)
  }

  lemma {:induction false} BitsAre(e: nat)
    ensures Bit(e, 0) == Valid(e) && Bit(e, 1) == (e / 2 % 2 == 1) && Bit(e, 2) == Writable(e) && Bit(e, 4) == User(e)
    ensures Bit(e, 3) == (e / 8 % 2 == 1)
    ensures Interior(e) ==> !Bit(e, 1) && !Bit(e, 3)
  {
    assert e / 2 / 2 == e / 4 && e / 4 / 2 == e / 8 && e / 8 / 2 == e / 16;
    assert Bit(e, 1) == Bit(e / 2, 0) && Bit(e, 2) == Bit(e / 2, 1) && Bit(e / 2, 1) == Bit(e / 4, 0);
    assert Bit(e, 3) == Bit(e / 2, 2) && Bit(e / 2, 2) == Bit(e / 4, 1) && Bit(e / 4, 1) == Bit(e / 8, 0);
    assert Bit(e, 4) == Bit(e / 2, 3) && Bit(e / 2, 3) == Bit(e / 4, 2) && Bit(e / 4, 2) == Bit(e / 8, 1);
    assert Bit(e / 8, 1) == Bit(e / 16, 0);
  }

  /** The tables mean to the hardware what they mean to the kernel: the entry that translates page n of a space is the
      one that walk finds. */
  lemma {:induction false} HardwareFindsLeaf(m: Mem, s: nat, n: nat)
    requires TablesOk(m) && s in m.roots && n < MAXPAGES
    ensures var e := Leaf(m, s, n);
            Translate(m, m.roots[s], 2, n) == if Bit(e, 0) && (Bit(e, 1) || Bit(e, 3)) then Some(e) else None
  {
    hide Bit, Valid, Interior;
    assert At(m, Top(s)) == Some(m.roots[s]);
    assert n / 0x4_0000 == n / ENTRIES / ENTRIES && n / 0x4_0000 % 512 == n / 0x4_0000;
    assert n / 0x200 % 512 == n / ENTRIES % ENTRIES;
    var i := n / ENTRIES / ENTRIES;
    var a := EntryOf(m, At(m, Top(s)), i);
    BitsAre(a);
    BitsAre(0);
    assert !Valid(0) by {
      NothingValid();
    }
    assert m.tables[m.roots[s]][Vpn(n, 2)] == a;
    if Valid(a) {
      assert At(m, Mid(s, i)) == Some(Ppn(a)) && Interior(a);
      assert Translate(m, m.roots[s], 2, n) == Translate(m, Ppn(a), 1, n);
      var b := EntryOf(m, At(m, Mid(s, i)), n / ENTRIES % ENTRIES);
      BitsAre(b);
      assert m.tables[Ppn(a)][Vpn(n, 1)] == b;
      if Valid(b) {
        assert At(m, Low(s, n / ENTRIES)) == Some(Ppn(b)) && Interior(b);
        assert Translate(m, Ppn(a), 1, n) == Translate(m, Ppn(b), 0, n);
        BitsAre(Leaf(m, s, n));
        assert m.tables[Ppn(b)][Vpn(n, 0)] == Leaf(m, s, n);
      } else {
        assert At(m, Low(s, n / ENTRIES)) == None;
      }
    } else {
      assert At(m, Mid(s, i)) == None;
      assert At(m, Low(s, n / ENTRIES)) == None;
    }
  }

  /** A page that uvmalloc mapped: the process can read it, and write or execute it exactly as asked for. */
  lemma {:induction false} GrownAccess(m: Mem, r: Mem, s: nat, lo: nat, hi: nat, xperm: nat, k: nat)
    requires xperm in {0, PTE_W, PTE_X, PTE_W + PTE_X} && Added(m, r, s, lo, hi, ZeroPages(xperm))
    requires TablesOk(r) && s in r.roots && lo <= k < hi <= MAXPAGES
    ensures var e := Translate(r, r.roots[s], 2, k);
            && e.Some? && Bit(e.value, 1) && Bit(e.value, 4) && e.value / 1024 in r.data
            && (Bit(e.value, 2) <==> xperm in {PTE_W, PTE_W + PTE_X})
            && (Bit(e.value, 3) <==> xperm in {PTE_X, PTE_W + PTE_X})
  {
    hide Leaf, Bit, Translate, MappedIn, TablesOk;
    var e := Leaf(r, s, k);
    assert IsNew(m, r, s, k, ZeroPages(xperm)(k).value);
    HardwareFindsLeaf(r, s, k);
    var w := if xperm in {PTE_W, PTE_W + PTE_X} then 1 else 0;
    var x := if xperm in {PTE_X, PTE_W + PTE_X} then 1 else 0;
    FlagsOf(e, w, x);
  }

  lemma {:induction false} FlagsOf(e: nat, w: nat, x: nat)
    requires w <= 1 && x <= 1 && Flags(e) == PTE_V + PTE_R + w * PTE_W + x * PTE_X + PTE_U
    ensures Bit(e, 0) && Bit(e, 1) && Bit(e, 4) && (Bit(e, 2) <==> w == 1) && (Bit(e, 3) <==> x == 1)
  {
    hide Bit;
    var p := e / 1024;
    assert e == 1 + 2 + 4 * w + 8 * x + 16 + 32 * (32 * p);
    PteBits(1, 1, w, x, 1, 32 * p);
    BitsAre(e);
    assert e / 2 == 1 + 2 * (w + 2 * x + 4 + 256 * p) && e / 8 == x + 2 * (1 + 64 * p);
  }

  /** A page that vmfault mapped: the process can read and write it. */
  lemma {:induction false} FaultAccess(m: Mem, r: Mem, s: nat, n: nat, q: nat)
    requires NewPage(m, r, s, n, q, ZERO_PAGE, PTE_W + PTE_U + PTE_R)
    requires TablesOk(r) && s in r.roots && n < MAXPAGES
    ensures var e := Translate(r, r.roots[s], 2, n);
            e.Some? && Bit(e.value, 1) && Bit(e.value, 2) && !Bit(e.value, 3) && Bit(e.value, 4) && e.value / 1024 == q
  {
    hide Leaf, Bit, Translate, TablesOk;
    NewPageIs(m, r, s, n, q, ZERO_PAGE, PTE_W + PTE_U + PTE_R);
    HardwareFindsLeaf(r, s, n);
    FlagsOf(Leaf(r, s, n), 1, 0);
  }
}
