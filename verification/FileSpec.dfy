/** What writing, truncating and storing an inode do to the files of a volume. */
module FileSpec {
  import opened Blocks
  import opened FsSpec

  // ---- writing bytes

  /** c with the bytes from off on replaced by d, longer if d reaches past its end. */
  function Splice(c: seq<Byte>, off: nat, d: seq<Byte>): (r: seq<Byte>)
    requires off <= |c|
  {
    c[..off] + d + (if off + |d| <= |c| then c[off + |d|..] else [])
  }

  lemma {:induction false} SpliceMore(c: seq<Byte>, off: nat, d: seq<Byte>, e: seq<Byte>)
    requires off <= |c|
    ensures off + |d| <= |Splice(c, off, d)|
    ensures Splice(Splice(c, off, d), off + |d|, e) == Splice(c, off, d + e)
  {
    var one := Splice(c, off, d);
    assert one[..off + |d|] == c[..off] + d;
    var both := Splice(c, off, d + e);
    var two := Splice(one, off + |d|, e);
    assert |both| == |two|;
    forall x | 0 <= x < |both| ensures both[x] == two[x] {
    }
  }

  lemma {:induction false} SpliceNothing(c: seq<Byte>, off: nat)
    requires off <= |c|
    ensures Splice(c, off, []) == c
  {
  }

  function Patched(data: Block, lo: nat, d: seq<Byte>): (r: Block)
    requires lo + |d| <= BSIZE
  {
    data[..lo] + d + data[lo + |d|..]
  }

  function Max(a: nat, b: nat): (r: nat) {
    if a < b then b else a
  }

  lemma {:induction false} ChunkByte(sb: Super, s: Fs, i: nat, len: nat, off: nat, d: seq<Byte>, x: nat)
    requires Sized(sb, s) && Separate(s) && SlotsOk(sb, s) && i < |s.inodes| && off <= len
    requires 0 < |d| <= BSIZE - off % BSIZE && Filled(s, i, Max(len, off + |d|)) && x < Max(len, off + |d|)
    ensures var b := Slot(s, i, SlotFor(off / BSIZE));
            && 0 < b < sb.size
            && ByteAt(Stored(s, b, Patched(s.disk[b], off % BSIZE, d)), i, x) ==
               if off <= x < off + |d| then d[x - off] else ByteAt(s, i, x)
  {
    var k := SlotFor(off / BSIZE);
    assert off / BSIZE * BSIZE < Max(len, off + |d|);
    assert ValidAt(s, i, k);
    assert SlotOk(sb, s, i, k);
    StoredByte(sb, s, i, k, Patched(s.disk[Slot(s, i, k)], off % BSIZE, d), i, x);
    if SlotFor(x / BSIZE) == k {
      assert x / BSIZE == off / BSIZE;
    }
  }

  lemma {:induction false} ChunkRange(sb: Super, s: Fs, i: nat, len: nat, off: nat, d: seq<Byte>)
    requires Sized(sb, s) && Separate(s) && SlotsOk(sb, s) && i < |s.inodes| && off <= len
    requires 0 < |d| <= BSIZE - off % BSIZE && Filled(s, i, Max(len, off + |d|))
    ensures 0 < Slot(s, i, SlotFor(off / BSIZE)) < sb.size
    ensures var b := Slot(s, i, SlotFor(off / BSIZE));
            Range(Stored(s, b, Patched(s.disk[b], off % BSIZE, d)), i, Max(len, off + |d|)) ==
                Splice(Range(s, i, len), off, d)
  {
    hide SlotsOk, Separate, Slot, Patched, ByteAt;
    ChunkByte(sb, s, i, len, off, d, 0);
    var b := Slot(s, i, SlotFor(off / BSIZE));
    var r := Stored(s, b, Patched(s.disk[b], off % BSIZE, d));
    var want := Splice(Range(s, i, len), off, d);
    forall x: nat | x < Max(len, off + |d|) ensures ByteAt(r, i, x) == want[x] {
      ChunkByte(sb, s, i, len, off, d, x);
    }
  }

  /** Patching one block of a file splices its bytes. */
  lemma {:induction false} ChunkWritten(sb: Super, s: Fs, i: nat, len: nat, off: nat, d: seq<Byte>)
    requires Inv(sb, s) && i < |s.inodes| && off <= len
    requires 0 < |d| <= BSIZE - off % BSIZE && Filled(s, i, Max(len, off + |d|))
    ensures Filled(s, i, len) && 0 < Slot(s, i, SlotFor(off / BSIZE)) < sb.size
    ensures var b := Slot(s, i, SlotFor(off / BSIZE));
            var r := Stored(s, b, Patched(s.disk[b], off % BSIZE, d));
            && Inv(sb, r) && Filled(r, i, Max(len, off + |d|))
            && Range(r, i, Max(len, off + |d|)) == Splice(Range(s, i, len), off, d)
  {
    hide SlotsOk, Separate, Slot, NoLeak, MetaMarked, AllFilled, SameShape, Splice, Range, Patched;
    ChunkRange(sb, s, i, len, off, d);
    var b := Slot(s, i, SlotFor(off / BSIZE));
    StoredShape(sb, s, i, SlotFor(off / BSIZE), Patched(s.disk[b], off % BSIZE, d));
    var r := Stored(s, b, Patched(s.disk[b], off % BSIZE, d));
    SameShapeInv(sb, s, r);
    SameShapeFilled(sb, s, r, i, Max(len, off + |d|));
  }

  /** Other files do not see it. */
  lemma {:induction false} ChunkElsewhere(sb: Super, s: Fs, i: nat, k: nat, data: Block, j: nat, len: nat)
    requires Inv(sb, s) && ValidAt(s, i, k) && k != NDIRECT && 0 < Slot(s, i, k) < sb.size
    requires j < |s.inodes| && j != i && Filled(s, j, len)
    ensures var r := Stored(s, Slot(s, i, k), data); Filled(r, j, len) && Range(r, j, len) == Range(s, j, len)
  {
    hide SlotsOk, Separate, Slot, NoLeak, MetaMarked, AllFilled, Owned, SameShape;
    var r := Stored(s, Slot(s, i, k), data);
    StoredShape(sb, s, i, k, data);
    SameShapeFilled(sb, s, r, j, len);
    forall x: nat | x < len ensures ByteAt(r, j, x) == ByteAt(s, j, x) {
      StoredByte(sb, s, i, k, data, j, x);
    }
  }

  // ---- inodes on disk

  /** Words at, at + 1, ... of a block become ws. */
  function StoreWords(data: Block, at: nat, ws: seq<Word>): (r: Block)
    requires at + |ws| <= WORDS
  {
    if ws == [] then data else PutWord(StoreWords(data, at, ws[..|ws| - 1]), at + |ws| - 1, ws[|ws| - 1])
  }

  lemma {:induction false} StoreWordsAt(data: Block, at: nat, ws: seq<Word>, j: nat)
    requires at + |ws| <= WORDS && j < WORDS
    ensures GetWord(StoreWords(data, at, ws), j) == if at <= j < at + |ws| then ws[j - at] else GetWord(data, j)
  {
    hide GetWord, PutWord;
    if ws != [] {
      StoreWordsAt(data, at, ws[..|ws| - 1], j);
      GetPutWord(StoreWords(data, at, ws[..|ws| - 1]), at + |ws| - 1, ws[|ws| - 1], j);
    }
  }

  /** The first word of inode i's size and addresses in its block: after type, major, minor and nlink. */
  function InodeWord(i: nat): (w: nat) {
    16 * (i % IPB) + 2
  }

  function InodeOnDisk(sb: Super, disk: seq<Block>, i: nat): (r: INode)
    requires ValidSuper(sb) && |disk| == sb.size && i < sb.ninodes
  {
    var data := disk[sb.inodestart + i / IPB];
    INode(GetWord(data, InodeWord(i)),
        seq<Word>(NDIRECT + 1, k requires 0 <= k < NDIRECT + 1 => GetWord(data, InodeWord(i) + 1 + k)))
  }

  lemma {:induction false} SameInode(sb: Super, disk: seq<Block>, other: seq<Block>, i: nat)
    requires ValidSuper(sb) && |disk| == |other| == sb.size && i < sb.ninodes
    requires forall c: nat :: c < sb.bmapstart ==> other[c] == disk[c]
    ensures InodeOnDisk(sb, other, i) == InodeOnDisk(sb, disk, i)
  {
    assert sb.inodestart + i / IPB < sb.bmapstart;
  }

  ghost predicate Synced(sb: Super, s: Fs, i: nat)
    requires Sized(sb, s) && i < sb.ninodes
  {
    InodeOnDisk(sb, s.disk, i) == s.inodes[i]
  }

  function Updated(sb: Super, s: Fs, i: nat): (r: Fs)
    requires ValidSuper(sb) && |s.disk| == sb.size && i < sb.ninodes == |s.inodes| && |s.inodes[i].addrs| == NDIRECT + 1
  {
    var n := sb.inodestart + i / IPB;
    s.(disk := s.disk[n := StoreWords(s.disk[n], InodeWord(i), [s.inodes[i].size] + s.inodes[i].addrs)])
  }

  lemma {:induction false} UpdatedWord(sb: Super, s: Fs, i: nat, j: nat, w: nat)
    requires Sized(sb, s) && i < sb.ninodes && j < sb.ninodes && w < NDIRECT + 2
    ensures GetWord(Updated(sb, s, i).disk[sb.inodestart + j / IPB], InodeWord(j) + w) ==
            if i == j then ([s.inodes[i].size] + s.inodes[i].addrs)[w]
            else GetWord(s.disk[sb.inodestart + j / IPB], InodeWord(j) + w)
  {
    hide GetWord, StoreWords;
    var ws := [s.inodes[i].size] + s.inodes[i].addrs;
    if i / IPB == j / IPB {
      StoreWordsAt(s.disk[sb.inodestart + i / IPB], InodeWord(i), ws, InodeWord(j) + w);
    }
  }

  /** iupdate puts inode i on disk and leaves the others there alone. */
  lemma {:induction false} UpdatedSynced(sb: Super, s: Fs, i: nat, j: nat)
    requires Sized(sb, s) && i < sb.ninodes && j < sb.ninodes
    ensures Sized(sb, Updated(sb, s, i))
    ensures if i == j then Synced(sb, Updated(sb, s, i), i)
            else InodeOnDisk(sb, Updated(sb, s, i).disk, j) == InodeOnDisk(sb, s.disk, j)
  {
    hide GetWord, StoreWords;
    var r := Updated(sb, s, i);
    var was, now := InodeOnDisk(sb, s.disk, j), InodeOnDisk(sb, r.disk, j);
    UpdatedWord(sb, s, i, j, 0);
    forall k: nat | k < NDIRECT + 1 ensures now.addrs[k] == if i == j then s.inodes[i].addrs[k] else was.addrs[k] {
      UpdatedWord(sb, s, i, j, 1 + k);
    }
    if i == j {
      assert now.addrs == s.inodes[i].addrs;
    } else {
      assert now.addrs == was.addrs;
    }
  }

  lemma {:induction false} UpdatedShape(sb: Super, s: Fs, i: nat)
    requires Sized(sb, s) && SlotsOk(sb, s) && i < sb.ninodes
    ensures Sized(sb, Updated(sb, s, i)) && SameShape(sb, s, Updated(sb, s, i))
    ensures forall c: nat :: sb.bmapstart <= c < sb.size ==> Updated(sb, s, i).disk[c] == s.disk[c]
  {
    hide Updated, Slot, SlotsOk, Marked;
    UpdatedDisk(sb, s, i);
    var r := Updated(sb, s, i);
    forall j: nat, l: nat | ValidAt(s, j, l) ensures Slot(r, j, l) == Slot(s, j, l) {
      SameSlot(sb, s, r, j, l);
    }
    forall c: nat | c < sb.size ensures Marked(sb, r.disk, c) <==> Marked(sb, s.disk, c) {
      SameMarks(sb, s.disk, r.disk, c);
    }
  }

  /** iupdate writes below the bitmap. */
  lemma {:induction false} UpdatedDisk(sb: Super, s: Fs, i: nat)
    requires Sized(sb, s) && i < sb.ninodes
    ensures var r := Updated(sb, s, i);
            && Sized(sb, r) && r.inodes == s.inodes && |r.disk| == |s.disk|
            && forall c: nat :: sb.bmapstart <= c < sb.size ==> r.disk[c] == s.disk[c]
  {
    hide StoreWords;
  }

  lemma {:induction false} SameSlot(sb: Super, s: Fs, r: Fs, j: nat, l: nat)
    requires Sized(sb, s) && SlotsOk(sb, s) && ValidAt(s, j, l) && r.inodes == s.inodes && |r.disk| == |s.disk|
    requires forall c: nat :: sb.bmapstart <= c < sb.size ==> r.disk[c] == s.disk[c]
    ensures ValidAt(r, j, l) && Slot(r, j, l) == Slot(s, j, l)
  {
    hide GetWord;
    assert ValidAt(s, j, NDIRECT);
    assert SlotOk(sb, s, j, NDIRECT);
  }

  lemma {:induction false} UpdatedKeeps(sb: Super, s: Fs, i: nat, j: nat)
    requires Inv(sb, s) && i < sb.ninodes && j < sb.ninodes
    ensures Inv(sb, Updated(sb, s, i)) && Filled(s, j, s.inodes[j].size)
    ensures Contents(Updated(sb, s, i), j) == Contents(s, j)
  {
    hide SlotsOk, Separate, NoLeak, MetaMarked, Owned, SameShape;
    UpdatedShape(sb, s, i);
    var r := Updated(sb, s, i);
    SameShapeInv(sb, s, r);
    assert Filled(s, j, s.inodes[j].size);
    forall x: nat | x < s.inodes[j].size ensures ByteAt(r, j, x) == ByteAt(s, j, x) {
      UpdatedByte(sb, s, i, j, x);
    }
    assert Range(r, j, s.inodes[j].size) == Range(s, j, s.inodes[j].size);
  }

  lemma {:induction false} UpdatedByte(sb: Super, s: Fs, i: nat, j: nat, x: nat)
    requires Sized(sb, s) && SlotsOk(sb, s) && i < sb.ninodes && j < sb.ninodes && x < s.inodes[j].size
    requires Filled(s, j, s.inodes[j].size)
    ensures ByteAt(Updated(sb, s, i), j, x) == ByteAt(s, j, x)
  {
    UpdatedShape(sb, s, i);
    assert x / BSIZE * BSIZE < s.inodes[j].size;
    assert ValidAt(s, j, SlotFor(x / BSIZE));
    assert SlotOk(sb, s, j, SlotFor(x / BSIZE));
  }

  // ---- truncating

  /** From s0 to s exactly the blocks in gone have been unmarked, and only bitmap blocks have changed. */
  ghost predicate Freed(sb: Super, s0: Fs, s: Fs, gone: set<nat>) {
    && ValidSuper(sb) && |s0.disk| == |s.disk| == sb.size
    && (forall c: nat :: c < sb.size && (c < sb.bmapstart || sb.datastart <= c) ==> s.disk[c] == s0.disk[c])
    && (forall c: nat :: c < sb.size ==> (Marked(sb, s.disk, c) <==> Marked(sb, s0.disk, c) && c !in gone))
  }

  lemma {:induction false} FreeOne(sb: Super, s0: Fs, s: Fs, gone: set<nat>, b: nat, inodes: seq<INode>)
    requires Freed(sb, s0, s, gone) && b < sb.size
    ensures Freed(sb, s0, Fs(WithMark(sb, s.disk, b, false), inodes), gone + {b})
  {
    var disk := WithMark(sb, s.disk, b, false);
    forall c: nat | c < sb.size && (c < sb.bmapstart || sb.datastart <= c) ensures disk[c] == s0.disk[c] {
      WithMarkElsewhere(sb, s.disk, b, false, c);
    }
    forall c: nat | c < sb.size ensures Marked(sb, disk, c) <==> Marked(sb, s0.disk, c) && c !in gone + {b} {
      WithMarkAt(sb, s.disk, b, false, c);
    }
  }

  /** The blocks that slots lo to hi of inode i name. */
  ghost function BlocksIn(s: Fs, i: nat, lo: nat, hi: nat): (r: set<nat>)
    requires i < |s.inodes| && |s.inodes[i].addrs| == NDIRECT + 1 && lo <= hi <= SLOTS
    decreases hi
  {
    if lo == hi then {} else
      BlocksIn(s, i, lo, hi - 1) + if Slot(s, i, hi - 1) == 0 then {} else {Slot(s, i, hi - 1) as nat}
  }

  lemma {:induction false} BlocksInHas(s: Fs, i: nat, lo: nat, hi: nat, b: nat)
    requires i < |s.inodes| && |s.inodes[i].addrs| == NDIRECT + 1 && lo <= hi <= SLOTS
    ensures b in BlocksIn(s, i, lo, hi) <==> b != 0 && exists k: nat :: lo <= k < hi && Slot(s, i, k) == b
    decreases hi
  {
    if lo < hi {
      BlocksInHas(s, i, lo, hi - 1, b);
    }
  }

  /** A block not freed yet is still marked when itrunc comes to it. */
  lemma {:induction false} StillMarked(sb: Super, s0: Fs, s: Fs, i: nat, gone: set<nat>, k: nat)
    requires Sized(sb, s0) && SlotsOk(sb, s0) && Separate(s0) && Freed(sb, s0, s, gone) && ValidAt(s0, i, k)
    requires forall b :: b in gone ==> exists l: nat :: l < SLOTS && l != k && Slot(s0, i, l) == b
    requires Slot(s0, i, k) != 0
    ensures sb.datastart <= Slot(s0, i, k) < sb.size && Marked(sb, s.disk, Slot(s0, i, k))
  {
    assert SlotOk(sb, s0, i, k);
    forall l: nat | l < SLOTS && l != k ensures Slot(s0, i, l) != Slot(s0, i, k) {
      assert ValidAt(s0, i, l);
      assert Apart(s0, i, k, i, l);
    }
  }

  ghost predicate OwnedBy(s: Fs, i: nat, b: nat) {
    b != 0 && exists k: nat :: ValidAt(s, i, k) && Slot(s, i, k) == b
  }

  /** r is s0 with inode i empty and exactly its blocks unmarked. */
  ghost predicate Truncated(sb: Super, s0: Fs, r: Fs, i: nat) {
    && Sized(sb, s0) && Sized(sb, r) && i < |s0.inodes| && r.inodes == s0.inodes[i := r.inodes[i]]
    && r.inodes[i].size == 0 && (forall k :: 0 <= k < NDIRECT + 1 ==> r.inodes[i].addrs[k] == 0)
    && (forall c: nat :: sb.datastart <= c < sb.size ==> r.disk[c] == s0.disk[c])
    && (forall c: nat :: c < sb.size ==> (Marked(sb, r.disk, c) <==> Marked(sb, s0.disk, c) && !OwnedBy(s0, i, c)))
  }

  lemma {:induction false} TruncatedSlot(sb: Super, s0: Fs, r: Fs, i: nat, j: nat, l: nat)
    requires Truncated(sb, s0, r, i) && SlotsOk(sb, s0) && ValidAt(s0, j, l)
    ensures ValidAt(r, j, l) && Slot(r, j, l) == if j == i then 0 else Slot(s0, j, l)
  {
    assert ValidAt(s0, j, NDIRECT);
    assert SlotOk(sb, s0, j, NDIRECT);
  }

  lemma {:induction false} TruncatedSlotOk(sb: Super, s0: Fs, r: Fs, i: nat, j: nat, l: nat)
    requires Truncated(sb, s0, r, i) && SlotsOk(sb, s0) && Separate(s0) && ValidAt(r, j, l)
    ensures SlotOk(sb, r, j, l)
  {
    assert ValidAt(s0, j, l);
    TruncatedSlot(sb, s0, r, i, j, l);
    assert SlotOk(sb, s0, j, l);
    forall k: nat | ValidAt(s0, i, k) && j != i ensures Slot(s0, i, k) != 0 ==> Slot(s0, i, k) != Slot(s0, j, l) {
      assert Apart(s0, i, k, j, l);
    }
  }

  lemma {:induction false} TruncatedSeparate(sb: Super, s0: Fs, r: Fs, i: nat)
    requires Truncated(sb, s0, r, i) && SlotsOk(sb, s0) && Separate(s0)
    ensures Separate(r)
  {
    forall m: nat, n: nat, j: nat, l: nat | ValidAt(r, m, n) && ValidAt(r, j, l) ensures Apart(r, m, n, j, l) {
      assert ValidAt(s0, m, n) && ValidAt(s0, j, l);
      TruncatedSlot(sb, s0, r, i, m, n);
      TruncatedSlot(sb, s0, r, i, j, l);
      assert Apart(s0, m, n, j, l);
    }
  }

  lemma {:induction false} TruncatedNoLeak(sb: Super, s0: Fs, r: Fs, i: nat)
    requires Truncated(sb, s0, r, i) && SlotsOk(sb, s0) && NoLeak(sb, s0)
    ensures NoLeak(sb, r)
  {
    forall c: nat | sb.datastart <= c < sb.size && Marked(sb, r.disk, c) ensures Owned(r, c) {
      var j: nat, l: nat :| ValidAt(s0, j, l) && Slot(s0, j, l) == c;
      TruncatedSlot(sb, s0, r, i, j, l);
      assert ValidAt(r, j, l) && Slot(r, j, l) == c;
    }
  }

  lemma {:induction false} TruncatedBytes(sb: Super, s0: Fs, r: Fs, i: nat, j: nat)
    requires Truncated(sb, s0, r, i) && SlotsOk(sb, s0) && AllFilled(s0) && j < |s0.inodes|
    ensures Filled(s0, j, s0.inodes[j].size) && Filled(r, j, r.inodes[j].size)
    ensures Contents(r, j) == if j == i then [] else Contents(s0, j)
  {
    assert Filled(s0, j, s0.inodes[j].size);
    if j != i {
      forall bn: nat | bn * BSIZE < s0.inodes[j].size
        ensures Slot(r, j, SlotFor(bn)) == Slot(s0, j, SlotFor(bn)) && sb.datastart <= Slot(r, j, SlotFor(bn)) < sb.size
      {
        assert ValidAt(s0, j, SlotFor(bn));
        TruncatedSlot(sb, s0, r, i, j, SlotFor(bn));
        assert SlotOk(sb, s0, j, SlotFor(bn));
      }
      forall x: nat | x < s0.inodes[j].size ensures ByteAt(r, j, x) == ByteAt(s0, j, x) {
        assert x / BSIZE * BSIZE < s0.inodes[j].size;
      }
      assert Contents(r, j) == Contents(s0, j);
    }
  }

  /** itrunc leaves the invariant, an empty file, and every other file as it was. */
  lemma {:induction false} TruncatedInv(sb: Super, s0: Fs, r: Fs, i: nat)
    requires Inv(sb, s0) && Truncated(sb, s0, r, i)
    ensures Inv(sb, r)
  {
    hide SlotsOk, Separate, NoLeak, SlotOk, OwnedBy;
    assert SlotsOk(sb, r) by {
      TruncatedSlotsOk(sb, s0, r, i);
    }
    TruncatedSeparate(sb, s0, r, i);
    TruncatedNoLeak(sb, s0, r, i);
    forall j: nat | j < |r.inodes| ensures Filled(r, j, r.inodes[j].size) {
      TruncatedBytes(sb, s0, r, i, j);
    }
    forall c: nat | c < sb.datastart ensures Marked(sb, r.disk, c) {
      TruncatedMeta(sb, s0, r, i, c);
    }
  }

  lemma {:induction false} TruncatedSlotsOk(sb: Super, s0: Fs, r: Fs, i: nat)
    requires Truncated(sb, s0, r, i) && SlotsOk(sb, s0) && Separate(s0)
    ensures SlotsOk(sb, r)
  {
    forall j: nat, l: nat | ValidAt(r, j, l) ensures SlotOk(sb, r, j, l) {
      TruncatedSlotOk(sb, s0, r, i, j, l);
    }
  }

  lemma {:induction false} TruncatedMeta(sb: Super, s0: Fs, r: Fs, i: nat, c: nat)
    requires Truncated(sb, s0, r, i) && SlotsOk(sb, s0) && MetaMarked(sb, s0.disk) && c < sb.datastart
    ensures Marked(sb, r.disk, c)
  {
    forall k: nat | ValidAt(s0, i, k) ensures Slot(s0, i, k) == 0 || Slot(s0, i, k) != c {
      assert SlotOk(sb, s0, i, k);
    }
  }

  // ---- looking up a block

  ghost predicate Full(sb: Super, s: Fs)
    requires Sized(sb, s)
  {
    forall c: nat :: c < sb.size ==> Marked(sb, s.disk, c)
  }

  /** The state r after a lookup of slot k of inode i in s: unchanged if it was there, else with a new zeroed block, or
      unchanged and the disk full. */
  ghost predicate Mapped(sb: Super, s: Fs, r: Fs, i: nat, k: nat, addr: Word)
    requires Sized(sb, s) && ValidAt(s, i, k)
  {
    if Slot(s, i, k) != 0 then addr == Slot(s, i, k) && r == s
    else if addr == 0 then r == s && Full(sb, s)
    else CanGrow(sb, s, i, k, addr) && r == Grown(sb, s, i, k, addr)
  }

  /** What every lookup leaves: the invariant, and everything that was there. */
  ghost predicate Grew(sb: Super, s: Fs, r: Fs, i: nat) {
    Inv(sb, r) && Extends(s, r, i) && SameHead(sb, s, r)
  }

  lemma {:induction false} MappedGrew(sb: Super, s: Fs, r: Fs, i: nat, k: nat, addr: Word)
    requires Inv(sb, s) && ValidAt(s, i, k) && Mapped(sb, s, r, i, k, addr)
    ensures Grew(sb, s, r, i) && ValidAt(r, i, k)
    ensures if addr == 0 then Slot(r, i, k) == 0 && Full(sb, r) else Slot(r, i, k) == addr
  {
    hide SlotsOk, Separate, NoLeak, MetaMarked, AllFilled, Extends, Marked, Grown, Slot, SameHead, Full;
    if Slot(s, i, k) == 0 && addr != 0 {
      GrownInv(sb, s, i, k, addr);
      GrownHead(sb, s, i, k, addr);
      GrownSlot(sb, s, i, k, addr, i, k);
    } else {
      ExtendsSelf(s, i);
      HeadSelf(sb, s);
    }
  }

  lemma {:induction false} HeadSelf(sb: Super, s: Fs)
    requires Sized(sb, s)
    ensures SameHead(sb, s, s)
  {
  }

  // ---- a whole write

  /** Between s0 and s, every inode but i keeps its fields and its contents. */
  ghost predicate OthersKept(s0: Fs, s: Fs, i: nat) {
    && |s.inodes| == |s0.inodes|
    && (forall j: nat :: j < |s0.inodes| && j != i ==> KeptFile(s0, s, j))
  }

  ghost predicate KeptFile(s0: Fs, s: Fs, j: nat)
    requires j < |s0.inodes| == |s.inodes|
  {
    && s.inodes[j] == s0.inodes[j] && Filled(s0, j, s0.inodes[j].size) && Filled(s, j, s.inodes[j].size)
    && Contents(s, j) == Contents(s0, j)
  }

  lemma {:induction false} OthersTrans(s0: Fs, s: Fs, r: Fs, i: nat)
    requires OthersKept(s0, s, i) && OthersKept(s, r, i)
    ensures OthersKept(s0, r, i)
  {
    forall j: nat | j < |s0.inodes| && j != i ensures KeptFile(s0, r, j) {
      assert KeptFile(s0, s, j) && KeptFile(s, r, j);
    }
  }

  lemma {:induction false} OthersSelf(s: Fs, i: nat)
    requires AllFilled(s)
    ensures OthersKept(s, s, i)
  {
  }

  lemma {:induction false} ExtendsOthers(sb: Super, s: Fs, r: Fs, i: nat)
    requires Sized(sb, s) && SlotsOk(sb, s) && AllFilled(s) && Extends(s, r, i)
    ensures OthersKept(s, r, i)
  {
    forall j: nat | j < |s.inodes| && j != i ensures KeptFile(s, r, j) {
      ExtendsBytes(sb, s, r, i, j, s.inodes[j].size);
    }
  }

  lemma {:induction false} StoredOthers(sb: Super, s: Fs, i: nat, k: nat, data: Block)
    requires Inv(sb, s) && ValidAt(s, i, k) && k != NDIRECT && 0 < Slot(s, i, k) < sb.size
    ensures OthersKept(s, Stored(s, Slot(s, i, k), data), i)
  {
    hide SlotsOk, Separate, Slot, NoLeak, MetaMarked, Contents, Range;
    var r := Stored(s, Slot(s, i, k), data);
    forall j: nat | j < |s.inodes| && j != i ensures KeptFile(s, r, j) {
      KeptByStore(sb, s, i, k, data, j);
    }
  }

  lemma {:induction false} KeptByStore(sb: Super, s: Fs, i: nat, k: nat, data: Block, j: nat)
    requires Inv(sb, s) && ValidAt(s, i, k) && k != NDIRECT && 0 < Slot(s, i, k) < sb.size
    requires j < |s.inodes| && j != i
    ensures KeptFile(s, Stored(s, Slot(s, i, k), data), j)
  {
    hide SlotsOk, Separate, NoLeak, MetaMarked;
    assert Filled(s, j, s.inodes[j].size);
    ChunkElsewhere(sb, s, i, k, data, j, s.inodes[j].size);
  }

  lemma {:induction false} StoredHead(sb: Super, s: Fs, i: nat, k: nat, data: Block)
    requires Sized(sb, s) && SlotsOk(sb, s) && ValidAt(s, i, k) && 0 < Slot(s, i, k) < sb.size
    ensures SameHead(sb, s, Stored(s, Slot(s, i, k), data))
  {
    assert SlotOk(sb, s, i, k);
  }

  /** Once bmap has found a block for offset off, the file has blocks for everything up to the end of the chunk. */
  lemma {:induction false} ReadyForChunk(sb: Super, s: Fs, r: Fs, i: nat, len: nat, off: nat, m: nat)
    requires Sized(sb, s) && SlotsOk(sb, s) && Extends(s, r, i) && i < |s.inodes|
    requires Filled(s, i, len) && off <= len && 0 < m <= BSIZE - off % BSIZE && off + m <= MAXFILE * BSIZE
    requires ValidAt(r, i, SlotFor(off / BSIZE)) && Slot(r, i, SlotFor(off / BSIZE)) != 0
    ensures Filled(r, i, Max(len, off + m)) && Filled(r, i, len) && Range(r, i, len) == Range(s, i, len)
  {
    ExtendsBytes(sb, s, r, i, i, len);
    forall bn: nat | bn * BSIZE < Max(len, off + m) ensures Slot(r, i, SlotFor(bn)) != 0 {
      assert bn * BSIZE < len || bn == off / BSIZE;
    }
  }

  /** Inode i with another size. */
  function Resized(s: Fs, i: nat, len: Word): (r: Fs)
    requires i < |s.inodes|
  {
    s.(inodes := s.inodes[i := s.inodes[i].(size := len)])
  }

  lemma {:induction false} ResizedSlot(s: Fs, i: nat, len: Word, j: nat, l: nat)
    requires i < |s.inodes| && (ValidAt(s, j, l) || ValidAt(Resized(s, i, len), j, l))
    ensures ValidAt(s, j, l) && ValidAt(Resized(s, i, len), j, l) && Slot(Resized(s, i, len), j, l) == Slot(s, j, l)
  {
  }

  lemma {:induction false} ResizedSlots(sb: Super, s: Fs, i: nat, len: Word)
    requires Sound(sb, s) && NoLeak(sb, s) && i < |s.inodes|
    ensures var r := Resized(s, i, len); Sized(sb, r) && SlotsOk(sb, r) && Separate(r) && NoLeak(sb, r)
  {
    var r := Resized(s, i, len);
    forall j: nat, l: nat | ValidAt(r, j, l) ensures SlotOk(sb, r, j, l) {
      ResizedSlot(s, i, len, j, l);
      assert SlotOk(sb, s, j, l);
    }
    forall m: nat, n: nat, j: nat, l: nat | ValidAt(r, m, n) && ValidAt(r, j, l) ensures Apart(r, m, n, j, l) {
      ResizedSlot(s, i, len, m, n);
      ResizedSlot(s, i, len, j, l);
      assert Apart(s, m, n, j, l);
    }
    forall c: nat | sb.datastart <= c < sb.size && Marked(sb, r.disk, c) ensures Owned(r, c) {
      var j: nat, l: nat :| ValidAt(s, j, l) && Slot(s, j, l) == c;
      ResizedSlot(s, i, len, j, l);
      assert ValidAt(r, j, l) && Slot(r, j, l) == c;
    }
  }

  lemma {:induction false} ResizedFilled(s: Fs, i: nat, len: Word, j: nat, n: nat)
    requires i < |s.inodes| && Filled(s, j, n)
    ensures Filled(Resized(s, i, len), j, n) && Range(Resized(s, i, len), j, n) == Range(s, j, n)
  {
    var r := Resized(s, i, len);
    forall bn: nat | bn * BSIZE < n ensures Slot(r, j, SlotFor(bn)) == Slot(s, j, SlotFor(bn)) {
      ResizedSlot(s, i, len, j, SlotFor(bn));
    }
    forall x: nat | x < n ensures ByteAt(r, j, x) == ByteAt(s, j, x) {
      ResizedSlot(s, i, len, j, SlotFor(x / BSIZE));
    }
  }

  /** Setting the size to what has been written makes the bytes written the contents. */
  lemma {:induction false} ResizedInv(sb: Super, s: Fs, i: nat, len: Word)
    requires Inv(sb, s) && i < |s.inodes| && Filled(s, i, len)
    ensures Inv(sb, Resized(s, i, len)) && Contents(Resized(s, i, len), i) == Range(s, i, len)
    ensures OthersKept(s, Resized(s, i, len), i)
  {
    hide SlotsOk, Separate, NoLeak, MetaMarked, Slot, Range;
    var r := Resized(s, i, len);
    ResizedSlots(sb, s, i, len);
    forall j: nat | j < |r.inodes| ensures Filled(r, j, r.inodes[j].size) && (j != i ==> KeptFile(s, r, j)) {
      assert Filled(s, j, s.inodes[j].size);
      ResizedFilled(s, i, len, j, r.inodes[j].size);
    }
    ResizedFilled(s, i, len, i, len);
  }

  lemma {:induction false} UpdatedOthers(sb: Super, s: Fs, i: nat)
    requires Inv(sb, s) && i < sb.ninodes
    ensures OthersKept(s, Updated(sb, s, i), i)
  {
    hide SlotsOk, Separate, NoLeak, MetaMarked, Slot, Contents;
    forall j: nat | j < |s.inodes| && j != i ensures KeptFile(s, Updated(sb, s, i), j) {
      UpdatedKeeps(sb, s, i, j);
    }
  }

  // ---- reading

  lemma {:induction false} ByteInBlock(s: Fs, i: nat, off: nat, x: nat)
    requires i < |s.inodes| && |s.inodes[i].addrs| == NDIRECT + 1 && off + x < MAXFILE * BSIZE
             && off % BSIZE + x < BSIZE
    requires Slot(s, i, SlotFor(off / BSIZE)) < |s.disk|
    ensures ByteAt(s, i, off + x) == s.disk[Slot(s, i, SlotFor(off / BSIZE))][off % BSIZE + x]
  {
    assert (off + x) / BSIZE == off / BSIZE && (off + x) % BSIZE == off % BSIZE + x;
  }

  /** A piece of one block is the file's bytes at that place. */
  lemma {:induction false} ChunkRead(sb: Super, s: Fs, i: nat, len: nat, off: nat, m: nat)
    requires Sized(sb, s) && SlotsOk(sb, s) && i < |s.inodes| && Filled(s, i, len)
    requires off + m <= len && 0 < m <= BSIZE - off % BSIZE
    ensures ValidAt(s, i, SlotFor(off / BSIZE)) && 0 < Slot(s, i, SlotFor(off / BSIZE)) < sb.size
    ensures s.disk[Slot(s, i, SlotFor(off / BSIZE))][off % BSIZE..off % BSIZE + m] == Range(s, i, len)[off..off + m]
  {
    hide ByteAt, Slot;
    assert off / BSIZE * BSIZE < len;
    assert ValidAt(s, i, SlotFor(off / BSIZE));
    assert SlotOk(sb, s, i, SlotFor(off / BSIZE));
    var piece := s.disk[Slot(s, i, SlotFor(off / BSIZE))][off % BSIZE..off % BSIZE + m];
    var want := Range(s, i, len)[off..off + m];
    forall x: nat | x < m ensures piece[x] == want[x] {
      ByteInBlock(s, i, off, x);
    }
  }

  // ---- the stages of truncation

  /** The blocks itrunc has freed: slots below a, and indirect entries below slot c. */
  ghost function Gone(s: Fs, i: nat, a: nat, c: nat): (r: set<nat>)
    requires i < |s.inodes| && |s.inodes[i].addrs| == NDIRECT + 1 && a <= NDIRECT < c <= SLOTS
  {
    BlocksIn(s, i, 0, a) + BlocksIn(s, i, NDIRECT + 1, c)
  }

  lemma {:induction false} FreedNone(sb: Super, s: Fs, i: nat)
    requires Sized(sb, s) && i < |s.inodes|
    ensures Freed(sb, s, s, Gone(s, i, 0, NDIRECT + 1))
  {
  }

  lemma {:induction false} GoneDirect(s: Fs, i: nat, a: nat, c: nat)
    requires i < |s.inodes| && |s.inodes[i].addrs| == NDIRECT + 1 && a < NDIRECT < c <= SLOTS
    ensures Gone(s, i, a + 1, c) == if Slot(s, i, a) == 0 then Gone(s, i, a, c)
            else Gone(s, i, a, c) + {Slot(s, i, a) as nat}
  {
    var more: set<nat> := if Slot(s, i, a) == 0 then {} else {Slot(s, i, a) as nat};
    assert BlocksIn(s, i, 0, a + 1) == BlocksIn(s, i, 0, a) + more;
  }

  /** An indirect slot is a word of the indirect block. */
  lemma {:induction false} EntryIs(sb: Super, s: Fs, i: nat, j: nat)
    requires Sized(sb, s) && i < |s.inodes| && j < WORDS && 0 < s.inodes[i].addrs[NDIRECT] < |s.disk|
    ensures ValidAt(s, i, NDIRECT + 1 + j)
    ensures Slot(s, i, NDIRECT + 1 + j) == GetWord(s.disk[s.inodes[i].addrs[NDIRECT]], j)
  {
  }

  lemma {:induction false} GoneIndirect(s: Fs, i: nat, a: nat, c: nat)
    requires i < |s.inodes| && |s.inodes[i].addrs| == NDIRECT + 1 && a <= NDIRECT < c < SLOTS
    ensures Gone(s, i, a, c + 1) == if Slot(s, i, c) == 0 then Gone(s, i, a, c)
            else Gone(s, i, a, c) + {Slot(s, i, c) as nat}
  {
    var more: set<nat> := if Slot(s, i, c) == 0 then {} else {Slot(s, i, c) as nat};
    assert BlocksIn(s, i, NDIRECT + 1, c + 1) == BlocksIn(s, i, NDIRECT + 1, c) + more;
  }

  /** No block is freed twice. */
  lemma {:induction false} NextMarked(sb: Super, s0: Fs, s: Fs, i: nat, a: nat, c: nat, k: nat)
    requires Sized(sb, s0) && SlotsOk(sb, s0) && Separate(s0) && i < |s0.inodes| && a <= NDIRECT < c <= SLOTS
    requires Freed(sb, s0, s, Gone(s0, i, a, c))
    requires ValidAt(s0, i, k) && (a <= k <= NDIRECT || c <= k) && Slot(s0, i, k) != 0
    ensures sb.datastart <= Slot(s0, i, k) < sb.size && Marked(sb, s.disk, Slot(s0, i, k))
  {
    forall b | b in Gone(s0, i, a, c) ensures exists l: nat :: l < SLOTS && l != k && Slot(s0, i, l) == b {
      BlocksInHas(s0, i, 0, a, b);
      BlocksInHas(s0, i, NDIRECT + 1, c, b);
    }
    StillMarked(sb, s0, s, i, Gone(s0, i, a, c), k);
  }

  /** The last stage: the indirect block itself, if there was one. */
  ghost function AllGone(s: Fs, i: nat): (r: set<nat>)
    requires i < |s.inodes| && |s.inodes[i].addrs| == NDIRECT + 1
  {
    if Slot(s, i, NDIRECT) == 0 then Gone(s, i, NDIRECT, NDIRECT + 1)
    else Gone(s, i, NDIRECT, SLOTS) + {Slot(s, i, NDIRECT) as nat}
  }

  lemma {:induction false} AllGoneHas(s: Fs, i: nat, b: nat)
    requires i < |s.inodes| && |s.inodes[i].addrs| == NDIRECT + 1
    ensures b in AllGone(s, i) <==> OwnedBy(s, i, b)
  {
    hide Slot;
    BlocksInHas(s, i, 0, NDIRECT, b);
    BlocksInHas(s, i, NDIRECT + 1, SLOTS, b);
    BlocksInHas(s, i, NDIRECT + 1, NDIRECT + 1, b);
    if OwnedBy(s, i, b) {
      var k: nat :| ValidAt(s, i, k) && Slot(s, i, k) == b;
      if k > NDIRECT {
        IndirectEmpty(s, i, k);
      }
    } else if b != 0 {
      NoneOwned(s, i, b);
    }
  }

  lemma {:induction false} NoneOwned(s: Fs, i: nat, b: nat)
    requires i < |s.inodes| && |s.inodes[i].addrs| == NDIRECT + 1 && !OwnedBy(s, i, b) && b != 0
    ensures forall k: nat :: k < SLOTS ==> Slot(s, i, k) != b
  {
    hide Slot;
    forall k: nat | k < SLOTS ensures Slot(s, i, k) != b {
      assert ValidAt(s, i, k);
    }
  }

  lemma {:induction false} AllFreed(sb: Super, s0: Fs, s: Fs, i: nat)
    requires Sized(sb, s0) && i < |s0.inodes| && Freed(sb, s0, s, AllGone(s0, i))
    requires |s.inodes| == |s0.inodes| && s.inodes == s0.inodes[i := s.inodes[i]] && |s.inodes[i].addrs| == NDIRECT + 1
    requires s.inodes[i].size == 0 && forall k :: 0 <= k < NDIRECT + 1 ==> s.inodes[i].addrs[k] == 0
    ensures Truncated(sb, s0, s, i)
  {
    hide AllGone;
    forall c: nat | c < sb.size ensures Marked(sb, s.disk, c) <==> Marked(sb, s0.disk, c) && !OwnedBy(s0, i, c) {
      AllGoneHas(s0, i, c);
    }
  }

  /** Storing the inode does not undo it. */
  lemma {:induction false} TruncatedUpdated(sb: Super, s0: Fs, s: Fs, i: nat)
    requires Inv(sb, s0) && Truncated(sb, s0, s, i)
    ensures Inv(sb, s) && Truncated(sb, s0, Updated(sb, s, i), i)
  {
    hide SlotsOk, Separate, NoLeak, MetaMarked, AllFilled, OwnedBy, Marked, StoreWords;
    TruncatedInv(sb, s0, s, i);
    UpdatedShape(sb, s, i);
  }

  // ---- a fresh volume

  /** A zero disk with its first n blocks marked, as mkfs marks the blocks it has used. */
  ghost function Formatted(sb: Super, n: nat): (r: seq<Block>)
    requires ValidSuper(sb) && n <= sb.size
    ensures |r| == sb.size
  {
    if n == 0 then seq(sb.size, _ => ZERO_BLOCK) else WithMark(sb, Formatted(sb, n - 1), n - 1, true)
  }

  lemma {:induction false} ZeroBits(j: nat)
    ensures !BitOf(0, j)
  {
    if j > 0 {
      ZeroBits(j - 1);
    }
  }

  lemma {:induction false} BlankMarks(sb: Super, c: nat)
    requires ValidSuper(sb) && c < sb.size
    ensures !Marked(sb, Formatted(sb, 0), c)
  {
    ZeroBits(c % BPB % 8);
  }

  lemma {:induction false} FormattedMarks(sb: Super, n: nat, c: nat)
    requires ValidSuper(sb) && n <= sb.size && c < sb.size
    ensures Marked(sb, Formatted(sb, n), c) <==> c < n
  {
    hide Marked, WithMark;
    if n == 0 {
      BlankMarks(sb, c);
    } else {
      FormattedMarks(sb, n - 1, c);
      WithMarkAt(sb, Formatted(sb, n - 1), n - 1, true, c);
    }
  }

  /** A volume with empty inodes and exactly the blocks below the data marked satisfies the invariant. */
  lemma {:induction false} FormattedInv(sb: Super)
    requires ValidSuper(sb)
    ensures Inv(sb, Fs(Formatted(sb, sb.datastart), seq(sb.ninodes, _ => INode(0, seq(NDIRECT + 1, _ => 0)))))
  {
    var s := Fs(Formatted(sb, sb.datastart), seq(sb.ninodes, _ => INode(0, seq(NDIRECT + 1, _ => 0))));
    hide Marked, Formatted;
    forall c: nat | c < sb.size ensures Marked(sb, s.disk, c) <==> c < sb.datastart {
      FormattedMarks(sb, sb.datastart, c);
    }
  }

  /** Bytes written are the bytes read back from the same place; all others are as they were, and the length grows only
      as far as was written. */
  lemma {:induction false} SpliceReadBack(c: seq<Byte>, off: nat, d: seq<Byte>)
    requires off <= |c|
    ensures |Splice(c, off, d)| == if |c| < off + |d| then off + |d| else |c|
    ensures Splice(c, off, d)[off..off + |d|] == d
    ensures forall k :: 0 <= k < |c| && !(off <= k < off + |d|) ==> Splice(c, off, d)[k] == c[k]
  {
    assert Splice(c, off, d)[..off + |d|] == c[..off] + d;
  }
}
