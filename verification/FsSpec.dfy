/** The file layer of kernel/fs.c over the logical disk that a transaction sees: the free bitmap, the block
    addresses of inodes, and the byte sequence each file stands for. */
module FsSpec {
  import opened Blocks

  const NDIRECT := 12
  const MAXFILE := NDIRECT + WORDS
  const SLOTS := MAXFILE + 1
  const BPB := 8192
  const IPB := 16

  // ---- bits of a byte

  function Pow2(j: nat): (r: nat)
    ensures r > 0
  {
    if j == 0 then 1 else 2 * Pow2(j - 1)
  }

  predicate BitOf(x: nat, j: nat) {
    if j == 0 then x % 2 == 1 else BitOf(x / 2, j - 1)
  }

  lemma {:induction false} AddBit(x: nat, j: nat, k: nat)
    requires !BitOf(x, j)
    ensures BitOf(x + Pow2(j), k) <==> k == j || BitOf(x, k)
  {
    if j > 0 {
      assert (x + Pow2(j)) / 2 == x / 2 + Pow2(j - 1) && (x + Pow2(j)) % 2 == x % 2;
      if k > 0 {
        AddBit(x / 2, j - 1, k - 1);
      }
    } else {
      assert (x + 1) / 2 == x / 2;
    }
  }

  lemma {:induction false} AddBitBound(x: nat, j: nat, n: nat)
    requires !BitOf(x, j) && j < n && x < Pow2(n)
    ensures x + Pow2(j) < Pow2(n)
  {
    var half := x / 2;
    assert Pow2(n) == 2 * Pow2(n - 1) && x == 2 * half + x % 2;
    if j > 0 {
      assert Pow2(j) == 2 * Pow2(j - 1) && half < Pow2(n - 1);
      AddBitBound(half, j - 1, n - 1);
    }
  }

  lemma {:induction false} DropBit(x: nat, j: nat, k: nat)
    requires BitOf(x, j)
    ensures x >= Pow2(j) && (BitOf(x - Pow2(j), k) <==> k != j && BitOf(x, k))
  {
    if j > 0 {
      DropBit(x / 2, j - 1, if k > 0 then k - 1 else 0);
      assert (x - Pow2(j)) / 2 == x / 2 - Pow2(j - 1) && (x - Pow2(j)) % 2 == x % 2;
    } else {
      assert (x - 1) / 2 == x / 2;
    }
  }

  lemma {:induction false} Pow2Eight()
    ensures Pow2(8) == 256
  {
    assert Pow2(4) == 16;
    assert Pow2(6) == 64;
  }

  /** The byte with bit j set or cleared. */
  function ByteWith(x: Byte, j: nat, on: bool): (r: Byte)
    requires j < 8
  {
    Pow2Eight();
    if BitOf(x, j) == on then x
    else if on then AddBitBound(x, j, 8); x + Pow2(j)
    else DropBit(x, j, j); x - Pow2(j)
  }

  lemma {:induction false} ByteWithBit(x: Byte, j: nat, on: bool, k: nat)
    requires j < 8
    ensures BitOf(ByteWith(x, j, on), k) <==> if k == j then on else BitOf(x, k)
  {
    if BitOf(x, j) != on {
      if on {
        AddBit(x, j, k);
      } else {
        DropBit(x, j, k);
      }
    }
  }

  // ---- the volume

  /** The parts of the superblock that the file layer uses; data blocks start at datastart. */
  datatype Super = Super(size: nat, inodestart: nat, ninodes: nat, bmapstart: nat, datastart: nat)

  predicate ValidSuper(sb: Super) {
    && 0 < sb.inodestart && sb.inodestart + sb.ninodes / IPB < sb.bmapstart
    && sb.bmapstart + sb.size / BPB < sb.datastart <= sb.size <= WORD_LIMIT
  }

  /** An inode's size and block addresses: NDIRECT data blocks and the indirect block. */
  datatype INode = INode(size: Word, addrs: seq<Word>)

  datatype Fs = Fs(disk: seq<Block>, inodes: seq<INode>)

  predicate Sized(sb: Super, s: Fs) {
    && ValidSuper(sb) && |s.disk| == sb.size && |s.inodes| == sb.ninodes
    && (forall i :: 0 <= i < |s.inodes| ==> |s.inodes[i].addrs| == NDIRECT + 1)
  }

  // ---- the bitmap

  predicate Marked(sb: Super, disk: seq<Block>, b: nat)
    requires ValidSuper(sb) && |disk| == sb.size && b < sb.size
  {
    BitOf(disk[sb.bmapstart + b / BPB][b % BPB / 8], b % BPB % 8)
  }

  /** The bit that balloc's inner loop looks at. */
  lemma {:induction false} BitHere(sb: Super, disk: seq<Block>, b: nat, bi: nat)
    requires ValidSuper(sb) && |disk| == sb.size && b % BPB == 0 && bi < BPB && b + bi < sb.size
    ensures b / BPB + sb.bmapstart < sb.size
    ensures Marked(sb, disk, b + bi) <==> BitOf(disk[b / BPB + sb.bmapstart][bi / 8], bi % 8)
  {
    assert (b + bi) / BPB == b / BPB && (b + bi) % BPB == bi;
  }

  function WithMark(sb: Super, disk: seq<Block>, b: nat, on: bool): (r: seq<Block>)
    requires ValidSuper(sb) && |disk| == sb.size && b < sb.size
    ensures |r| == |disk|
  {
    var n := sb.bmapstart + b / BPB;
    var bi := b % BPB;
    disk[n := disk[n][bi / 8 := ByteWith(disk[n][bi / 8], bi % 8, on)]]
  }

  lemma {:induction false} WithMarkAt(sb: Super, disk: seq<Block>, b: nat, on: bool, c: nat)
    requires ValidSuper(sb) && |disk| == sb.size && b < sb.size && c < sb.size
    ensures Marked(sb, WithMark(sb, disk, b, on), c) <==> if c == b then on else Marked(sb, disk, c)
  {
    var x := disk[sb.bmapstart + b / BPB][b % BPB / 8];
    ByteWithBit(x, b % BPB % 8, on, c % BPB % 8);
  }

  /** Only bitmap blocks change, and they lie below the data. */
  lemma {:induction false} WithMarkElsewhere(sb: Super, disk: seq<Block>, b: nat, on: bool, c: nat)
    requires ValidSuper(sb) && |disk| == sb.size && b < sb.size && c < sb.size
    requires c < sb.bmapstart || sb.datastart <= c
    ensures WithMark(sb, disk, b, on)[c] == disk[c]
  {
  }

  // ---- block addresses

  /** The block addresses an inode owns, by slot: NDIRECT data blocks, the indirect block, and its entries. */
  function SlotOf(disk: seq<Block>, ino: INode, k: nat): (b: Word)
    requires |ino.addrs| == NDIRECT + 1 && k < SLOTS
  {
    if k <= NDIRECT then ino.addrs[k]
    else if 0 < ino.addrs[NDIRECT] < |disk| then GetWord(disk[ino.addrs[NDIRECT]], k - NDIRECT - 1)
    else 0
  }

  /** The slot of a file's bn-th block. */
  function SlotFor(bn: nat): (k: nat) {
    if bn < NDIRECT then bn else bn + 1
  }

  ghost predicate ValidAt(s: Fs, i: nat, k: nat) {
    i < |s.inodes| && |s.inodes[i].addrs| == NDIRECT + 1 && k < SLOTS
  }

  ghost function Slot(s: Fs, i: nat, k: nat): (b: Word)
    requires ValidAt(s, i, k)
  {
    SlotOf(s.disk, s.inodes[i], k)
  }

  // ---- the invariant

  /** Slot k of inode i is empty or names a marked data block. */
  ghost predicate SlotOk(sb: Super, s: Fs, i: nat, k: nat)
    requires Sized(sb, s) && ValidAt(s, i, k)
  {
    Slot(s, i, k) != 0 ==> sb.datastart <= Slot(s, i, k) < sb.size && Marked(sb, s.disk, Slot(s, i, k))
  }

  ghost predicate SlotsOk(sb: Super, s: Fs)
    requires Sized(sb, s)
  {
    forall i: nat, k: nat :: ValidAt(s, i, k) ==> SlotOk(sb, s, i, k)
  }

  /** No block is owned twice. */
  ghost predicate Separate(s: Fs) {
    forall i: nat, k: nat, j: nat, l: nat :: ValidAt(s, i, k) && ValidAt(s, j, l) ==> Apart(s, i, k, j, l)
  }

  ghost predicate Apart(s: Fs, i: nat, k: nat, j: nat, l: nat)
    requires ValidAt(s, i, k) && ValidAt(s, j, l)
  {
    Slot(s, i, k) == Slot(s, j, l) != 0 ==> i == j && k == l
  }

  /** The blocks below the data are marked. */
  ghost predicate MetaMarked(sb: Super, disk: seq<Block>)
    requires ValidSuper(sb) && |disk| == sb.size
  {
    forall b: nat :: b < sb.datastart ==> Marked(sb, disk, b)
  }

  /** Inode i has a block for each of its first len bytes. */
  ghost predicate Filled(s: Fs, i: nat, len: nat) {
    && i < |s.inodes| && |s.inodes[i].addrs| == NDIRECT + 1 && len <= MAXFILE * BSIZE
    && (forall bn: nat :: bn * BSIZE < len ==> Slot(s, i, SlotFor(bn)) != 0)
  }

  ghost predicate AllFilled(s: Fs) {
    forall i: nat :: i < |s.inodes| ==> Filled(s, i, s.inodes[i].size)
  }

  ghost predicate Owned(s: Fs, b: nat) {
    exists i: nat, k: nat :: ValidAt(s, i, k) && Slot(s, i, k) == b
  }

  /** Every marked data block has an owner. */
  ghost predicate NoLeak(sb: Super, s: Fs)
    requires Sized(sb, s)
  {
    forall b: nat :: sb.datastart <= b < sb.size && Marked(sb, s.disk, b) ==> Owned(s, b)
  }

  ghost predicate Sound(sb: Super, s: Fs) {
    Sized(sb, s) && MetaMarked(sb, s.disk) && SlotsOk(sb, s) && Separate(s) && AllFilled(s)
  }

  ghost predicate Inv(sb: Super, s: Fs) {
    Sound(sb, s) && NoLeak(sb, s)
  }

  // ---- files as byte sequences

  ghost function ByteAt(s: Fs, i: nat, x: nat): (r: Byte)
    requires i < |s.inodes| && |s.inodes[i].addrs| == NDIRECT + 1 && x < MAXFILE * BSIZE
  {
    var b := Slot(s, i, SlotFor(x / BSIZE));
    if b < |s.disk| then s.disk[b][x % BSIZE] else 0
  }

  /** The first len bytes of file i. */
  ghost function Range(s: Fs, i: nat, len: nat): (r: seq<Byte>)
    requires i < |s.inodes| && |s.inodes[i].addrs| == NDIRECT + 1 && len <= MAXFILE * BSIZE
    ensures |r| == len
  {
    seq(len, x requires 0 <= x < len => ByteAt(s, i, x))
  }

  ghost function Contents(s: Fs, i: nat): (r: seq<Byte>)
    requires i < |s.inodes| && Filled(s, i, s.inodes[i].size)
  {
    Range(s, i, s.inodes[i].size)
  }

  // ---- growing a file leaves everything else alone

  /** Slot l of inode j survives from s to r, and so does the data block it names. */
  ghost predicate Survives(s: Fs, r: Fs, i: nat, j: nat, l: nat)
    requires ValidAt(s, j, l) && ValidAt(r, j, l) && |r.disk| == |s.disk|
  {
    var b := Slot(s, j, l);
    && (j != i || b != 0 ==> Slot(r, j, l) == b)
    && (0 < b < |s.disk| && l != NDIRECT ==> r.disk[b] == s.disk[b])
  }

  /** From s to r only inode i may have got more blocks; nothing that was there has changed. */
  ghost predicate Extends(s: Fs, r: Fs, i: nat) {
    && |r.disk| == |s.disk| && |r.inodes| == |s.inodes|
    && (forall j: nat :: j < |s.inodes| ==>
          r.inodes[j].size == s.inodes[j].size && |r.inodes[j].addrs| == |s.inodes[j].addrs|
          && (j != i ==> r.inodes[j] == s.inodes[j]))
    && (forall j: nat, l: nat :: ValidAt(s, j, l) ==> Survives(s, r, i, j, l))
  }

  lemma {:induction false} ExtendsTrans(s: Fs, r: Fs, q: Fs, i: nat)
    requires Extends(s, r, i) && Extends(r, q, i)
    ensures Extends(s, q, i)
  {
    forall j: nat, l: nat | ValidAt(s, j, l) ensures Survives(s, q, i, j, l) {
      assert Survives(s, r, i, j, l) && Survives(r, q, i, j, l);
    }
  }

  lemma {:induction false} ExtendsSelf(s: Fs, i: nat)
    ensures Extends(s, s, i)
  {
  }

  /** Without an indirect block there are no entries. */
  lemma {:induction false} IndirectEmpty(s: Fs, i: nat, k: nat)
    requires ValidAt(s, i, k) && k > NDIRECT
    ensures ValidAt(s, i, NDIRECT) && Slot(s, i, NDIRECT) == s.inodes[i].addrs[NDIRECT]
    ensures Slot(s, i, NDIRECT) == 0 ==> Slot(s, i, k) == 0
  {
  }

  lemma {:induction false} IndirectInside(sb: Super, s: Fs, i: nat)
    requires Sized(sb, s) && SlotsOk(sb, s) && i < |s.inodes| && s.inodes[i].addrs[NDIRECT] != 0
    ensures 0 < s.inodes[i].addrs[NDIRECT] < sb.size
  {
    assert ValidAt(s, i, NDIRECT);
    assert SlotOk(sb, s, i, NDIRECT);
  }

  lemma {:induction false} ExtendsBlock(sb: Super, s: Fs, r: Fs, i: nat, j: nat, l: nat)
    requires Sized(sb, s) && SlotsOk(sb, s) && Extends(s, r, i) && ValidAt(s, j, l) && l != NDIRECT
             && Slot(s, j, l) != 0
    ensures ValidAt(r, j, l) && Slot(r, j, l) == Slot(s, j, l) < sb.size == |r.disk|
    ensures r.disk[Slot(s, j, l)] == s.disk[Slot(s, j, l)]
  {
    assert Survives(s, r, i, j, l) && SlotOk(sb, s, j, l);
  }

  lemma {:induction false} ExtendsBytes(sb: Super, s: Fs, r: Fs, i: nat, j: nat, len: nat)
    requires Sized(sb, s) && SlotsOk(sb, s) && Extends(s, r, i) && Filled(s, j, len)
    ensures Filled(r, j, len) && Range(r, j, len) == Range(s, j, len)
  {
    forall bn: nat | bn * BSIZE < len ensures Slot(r, j, SlotFor(bn)) != 0 {
      ExtendsBlock(sb, s, r, i, j, SlotFor(bn));
    }
    forall x: nat | x < len ensures ByteAt(r, j, x) == ByteAt(s, j, x) {
      assert x / BSIZE * BSIZE < len;
      ExtendsBlock(sb, s, r, i, j, SlotFor(x / BSIZE));
    }
  }

  /** Blocks below the data decide the marks. */
  lemma {:induction false} SameMarks(sb: Super, disk: seq<Block>, other: seq<Block>, b: nat)
    requires ValidSuper(sb) && |disk| == |other| == sb.size && b < sb.size
    requires forall c: nat :: sb.bmapstart <= c < sb.datastart ==> other[c] == disk[c]
    ensures Marked(sb, other, b) <==> Marked(sb, disk, b)
  {
    assert sb.bmapstart + b / BPB < sb.datastart;
  }

  // ---- taking a free block

  function Zeroed(disk: seq<Block>, b: nat): (r: seq<Block>)
    requires b < |disk|
  {
    disk[b := ZERO_BLOCK]
  }

  /** balloc: b is marked and zeroed. */
  function Taken(sb: Super, s: Fs, b: nat): (r: Fs)
    requires ValidSuper(sb) && |s.disk| == sb.size && b < sb.size
  {
    s.(disk := Zeroed(WithMark(sb, s.disk, b, true), b))
  }

  ghost predicate Free(sb: Super, s: Fs, b: nat)
    requires Sized(sb, s)
  {
    sb.datastart <= b < sb.size && !Marked(sb, s.disk, b)
  }

  lemma {:induction false} TakenMark(sb: Super, s: Fs, b: nat, c: nat)
    requires Sized(sb, s) && Free(sb, s, b) && c < sb.size
    ensures Marked(sb, Taken(sb, s, b).disk, c) <==> c == b || Marked(sb, s.disk, c)
  {
    WithMarkAt(sb, s.disk, b, true, c);
    SameMarks(sb, WithMark(sb, s.disk, b, true), Taken(sb, s, b).disk, c);
  }

  lemma {:induction false} OwnedKept(sb: Super, s: Fs, b: nat, j: nat, l: nat)
    requires Sized(sb, s) && SlotsOk(sb, s) && Free(sb, s, b) && ValidAt(s, j, l)
    ensures Slot(s, j, l) != b
    ensures Slot(s, j, l) != 0 ==>
              Slot(s, j, l) < sb.size && Taken(sb, s, b).disk[Slot(s, j, l)] == s.disk[Slot(s, j, l)]
  {
    assert SlotOk(sb, s, j, l);
    if Slot(s, j, l) != 0 {
      WithMarkElsewhere(sb, s.disk, b, true, Slot(s, j, l));
    }
  }

  lemma {:induction false} TakenSlot(sb: Super, s: Fs, b: nat, j: nat, l: nat)
    requires Sized(sb, s) && SlotsOk(sb, s) && Free(sb, s, b) && ValidAt(s, j, l)
    ensures ValidAt(Taken(sb, s, b), j, l) && Slot(Taken(sb, s, b), j, l) == Slot(s, j, l)
  {
    OwnedKept(sb, s, b, j, NDIRECT);
  }

  lemma {:induction false} TakenExtends(sb: Super, s: Fs, b: nat, i: nat)
    requires Sized(sb, s) && SlotsOk(sb, s) && Free(sb, s, b)
    ensures Extends(s, Taken(sb, s, b), i)
  {
    forall j: nat, l: nat | ValidAt(s, j, l) ensures Survives(s, Taken(sb, s, b), i, j, l) {
      TakenSlot(sb, s, b, j, l);
      OwnedKept(sb, s, b, j, l);
    }
  }

  lemma {:induction false} TakenSlotsOk(sb: Super, s: Fs, b: nat)
    requires Sized(sb, s) && SlotsOk(sb, s) && Free(sb, s, b)
    ensures SlotsOk(sb, Taken(sb, s, b)) && !Owned(Taken(sb, s, b), b)
  {
    var r := Taken(sb, s, b);
    forall j: nat, l: nat | ValidAt(r, j, l) ensures SlotOk(sb, r, j, l) && Slot(r, j, l) != b {
      assert ValidAt(s, j, l);
      TakenSlot(sb, s, b, j, l);
      OwnedKept(sb, s, b, j, l);
      assert SlotOk(sb, s, j, l);
      if Slot(s, j, l) != 0 {
        TakenMark(sb, s, b, Slot(s, j, l));
      }
    }
  }

  lemma {:induction false} TakenSeparate(sb: Super, s: Fs, b: nat)
    requires Sized(sb, s) && SlotsOk(sb, s) && Free(sb, s, b) && Separate(s)
    ensures Separate(Taken(sb, s, b))
  {
    var r := Taken(sb, s, b);
    forall i: nat, k: nat, j: nat, l: nat | ValidAt(r, i, k) && ValidAt(r, j, l) ensures Apart(r, i, k, j, l) {
      assert ValidAt(s, i, k) && ValidAt(s, j, l);
      TakenSlot(sb, s, b, i, k);
      TakenSlot(sb, s, b, j, l);
      assert Apart(s, i, k, j, l);
    }
  }

  lemma {:induction false} TakenMeta(sb: Super, s: Fs, b: nat)
    requires Sized(sb, s) && Free(sb, s, b) && MetaMarked(sb, s.disk)
    ensures MetaMarked(sb, Taken(sb, s, b).disk)
  {
    forall c: nat | c < sb.datastart ensures Marked(sb, Taken(sb, s, b).disk, c) {
      TakenMark(sb, s, b, c);
    }
  }

  lemma {:induction false} ExtendsFilled(sb: Super, s: Fs, r: Fs, i: nat)
    requires Sized(sb, s) && SlotsOk(sb, s) && Extends(s, r, i) && AllFilled(s)
    ensures AllFilled(r)
  {
    forall j: nat | j < |r.inodes| ensures Filled(r, j, r.inodes[j].size) {
      ExtendsBytes(sb, s, r, i, j, s.inodes[j].size);
    }
  }

  lemma {:induction false} TakenSound(sb: Super, s: Fs, b: nat)
    requires Sound(sb, s) && Free(sb, s, b)
    ensures Sound(sb, Taken(sb, s, b)) && !Owned(Taken(sb, s, b), b)
  {
    hide SlotsOk, Separate, MetaMarked, AllFilled, Owned, Extends;
    TakenMeta(sb, s, b);
    TakenSlotsOk(sb, s, b);
    TakenSeparate(sb, s, b);
    TakenExtends(sb, s, b, 0);
    ExtendsFilled(sb, s, Taken(sb, s, b), 0);
  }

  // ---- giving a block to an inode

  /** Slot k of inode i, which was empty, becomes b. */
  function Linked(s: Fs, i: nat, k: nat, b: Word): (r: Fs)
    requires i < |s.inodes| && |s.inodes[i].addrs| == NDIRECT + 1 && k < SLOTS
    requires k > NDIRECT ==> s.inodes[i].addrs[NDIRECT] < |s.disk|
  {
    if k <= NDIRECT then s.(inodes := s.inodes[i := s.inodes[i].(addrs := s.inodes[i].addrs[k := b])])
    else
      var n := s.inodes[i].addrs[NDIRECT];
      s.(disk := s.disk[n := PutWord(s.disk[n], k - NDIRECT - 1, b)])
  }

  /** What Linked needs: the slot is empty, its indirect block is there, and a new indirect block is zero. */
  ghost predicate CanLink(sb: Super, s: Fs, i: nat, k: nat, b: Word) {
    && Sized(sb, s) && ValidAt(s, i, k) && Slot(s, i, k) == 0 && sb.datastart <= b < sb.size
    && (k > NDIRECT ==> 0 < s.inodes[i].addrs[NDIRECT] < sb.size)
    && (k == NDIRECT ==> s.disk[b] == ZERO_BLOCK)
  }

  lemma {:induction false} LinkedSlot(sb: Super, s: Fs, i: nat, k: nat, b: Word, j: nat, l: nat)
    requires CanLink(sb, s, i, k, b) && Separate(s) && ValidAt(s, j, l)
    ensures var r := Linked(s, i, k, b);
            ValidAt(r, j, l) && Slot(r, j, l) == if j == i && l == k then b else Slot(s, j, l)
  {
    hide GetWord, PutWord;
    assert Apart(s, i, NDIRECT, j, NDIRECT) by {
      assert ValidAt(s, i, NDIRECT) && ValidAt(s, j, NDIRECT);
    }
    if k > NDIRECT && l > NDIRECT {
      GetPutWord(s.disk[s.inodes[i].addrs[NDIRECT]], k - NDIRECT - 1, b, l - NDIRECT - 1);
    } else if k == NDIRECT && l > NDIRECT {
      GetWordOfZero(l - NDIRECT - 1);
    }
  }

  lemma {:induction false} LinkedMark(sb: Super, s: Fs, i: nat, k: nat, b: Word, c: nat)
    requires CanLink(sb, s, i, k, b) && SlotsOk(sb, s) && c < sb.size
    ensures Marked(sb, Linked(s, i, k, b).disk, c) <==> Marked(sb, s.disk, c)
  {
    assert ValidAt(s, i, NDIRECT);
    assert SlotOk(sb, s, i, NDIRECT);
    SameMarks(sb, s.disk, Linked(s, i, k, b).disk, c);
  }

  lemma {:induction false} LinkedSurvives(sb: Super, s: Fs, i: nat, k: nat, b: Word, j: nat, l: nat)
    requires CanLink(sb, s, i, k, b) && Separate(s) && ValidAt(s, j, l)
    ensures ValidAt(Linked(s, i, k, b), j, l) && Survives(s, Linked(s, i, k, b), i, j, l)
  {
    LinkedSlot(sb, s, i, k, b, j, l);
    assert Apart(s, i, NDIRECT, j, l) by {
      assert ValidAt(s, i, NDIRECT);
    }
  }

  lemma {:induction false} LinkedExtends(sb: Super, s: Fs, i: nat, k: nat, b: Word)
    requires CanLink(sb, s, i, k, b) && Separate(s)
    ensures Extends(s, Linked(s, i, k, b), i)
  {
    forall j: nat, l: nat | ValidAt(s, j, l) ensures Survives(s, Linked(s, i, k, b), i, j, l) {
      LinkedSurvives(sb, s, i, k, b, j, l);
    }
  }

  lemma {:induction false} LinkedSlotsOk(sb: Super, s: Fs, i: nat, k: nat, b: Word)
    requires CanLink(sb, s, i, k, b) && Separate(s) && SlotsOk(sb, s) && Marked(sb, s.disk, b)
    ensures SlotsOk(sb, Linked(s, i, k, b))
  {
    var r := Linked(s, i, k, b);
    forall j: nat, l: nat | ValidAt(r, j, l) ensures SlotOk(sb, r, j, l) {
      assert ValidAt(s, j, l);
      LinkedSlot(sb, s, i, k, b, j, l);
      assert SlotOk(sb, s, j, l);
      if Slot(r, j, l) != 0 {
        LinkedMark(sb, s, i, k, b, Slot(r, j, l));
      }
    }
  }

  lemma {:induction false} LinkedSeparate(sb: Super, s: Fs, i: nat, k: nat, b: Word)
    requires CanLink(sb, s, i, k, b) && Separate(s) && !Owned(s, b)
    ensures Separate(Linked(s, i, k, b))
  {
    var r := Linked(s, i, k, b);
    forall m: nat, n: nat, j: nat, l: nat | ValidAt(r, m, n) && ValidAt(r, j, l) ensures Apart(r, m, n, j, l) {
      assert ValidAt(s, m, n) && ValidAt(s, j, l);
      LinkedSlot(sb, s, i, k, b, m, n);
      LinkedSlot(sb, s, i, k, b, j, l);
      assert Apart(s, m, n, j, l);
    }
  }

  lemma {:induction false} LinkedMeta(sb: Super, s: Fs, i: nat, k: nat, b: Word)
    requires CanLink(sb, s, i, k, b) && SlotsOk(sb, s) && MetaMarked(sb, s.disk)
    ensures MetaMarked(sb, Linked(s, i, k, b).disk)
  {
    forall c: nat | c < sb.datastart ensures Marked(sb, Linked(s, i, k, b).disk, c) {
      LinkedMark(sb, s, i, k, b, c);
    }
  }

  lemma {:induction false} LinkedSound(sb: Super, s: Fs, i: nat, k: nat, b: Word)
    requires Sound(sb, s) && CanLink(sb, s, i, k, b) && !Owned(s, b) && Marked(sb, s.disk, b)
    ensures Sound(sb, Linked(s, i, k, b))
  {
    hide SlotsOk, Separate, MetaMarked, AllFilled, Owned, Extends;
    LinkedMeta(sb, s, i, k, b);
    LinkedSlotsOk(sb, s, i, k, b);
    LinkedSeparate(sb, s, i, k, b);
    LinkedExtends(sb, s, i, k, b);
    ExtendsFilled(sb, s, Linked(s, i, k, b), i);
  }

  // ---- both: slot k of inode i gets a block of its own

  function Grown(sb: Super, s: Fs, i: nat, k: nat, b: Word): (r: Fs)
    requires ValidSuper(sb) && |s.disk| == sb.size && b < sb.size
    requires i < |s.inodes| && |s.inodes[i].addrs| == NDIRECT + 1 && k < SLOTS
    requires k > NDIRECT ==> s.inodes[i].addrs[NDIRECT] < |s.disk|
  {
    Linked(Taken(sb, s, b), i, k, b)
  }

  ghost predicate CanGrow(sb: Super, s: Fs, i: nat, k: nat, b: Word) {
    && Sized(sb, s) && ValidAt(s, i, k) && Slot(s, i, k) == 0 && Free(sb, s, b)
    && (k > NDIRECT ==> 0 < s.inodes[i].addrs[NDIRECT] < sb.size)
  }

  lemma {:induction false} GrownCanLink(sb: Super, s: Fs, i: nat, k: nat, b: Word)
    requires CanGrow(sb, s, i, k, b) && SlotsOk(sb, s)
    ensures CanLink(sb, Taken(sb, s, b), i, k, b) && Marked(sb, Taken(sb, s, b).disk, b)
  {
    TakenSlot(sb, s, b, i, k);
    TakenMark(sb, s, b, b);
  }

  lemma {:induction false} GrownSlot(sb: Super, s: Fs, i: nat, k: nat, b: Word, j: nat, l: nat)
    requires CanGrow(sb, s, i, k, b) && SlotsOk(sb, s) && Separate(s) && ValidAt(s, j, l)
    ensures var r := Grown(sb, s, i, k, b);
            ValidAt(r, j, l) && Slot(r, j, l) == if j == i && l == k then b else Slot(s, j, l)
  {
    GrownCanLink(sb, s, i, k, b);
    TakenSeparate(sb, s, b);
    TakenSlot(sb, s, b, j, l);
    LinkedSlot(sb, Taken(sb, s, b), i, k, b, j, l);
  }

  lemma {:induction false} GrownMark(sb: Super, s: Fs, i: nat, k: nat, b: Word, c: nat)
    requires CanGrow(sb, s, i, k, b) && SlotsOk(sb, s) && c < sb.size
    ensures Marked(sb, Grown(sb, s, i, k, b).disk, c) <==> c == b || Marked(sb, s.disk, c)
  {
    GrownCanLink(sb, s, i, k, b);
    TakenSlotsOk(sb, s, b);
    TakenMark(sb, s, b, c);
    LinkedMark(sb, Taken(sb, s, b), i, k, b, c);
  }

  lemma {:induction false} GrownNoLeak(sb: Super, s: Fs, i: nat, k: nat, b: Word, c: nat)
    requires CanGrow(sb, s, i, k, b) && SlotsOk(sb, s) && Separate(s)
    requires NoLeak(sb, s) && sb.datastart <= c < sb.size && Marked(sb, Grown(sb, s, i, k, b).disk, c)
    ensures Owned(Grown(sb, s, i, k, b), c)
  {
    var r := Grown(sb, s, i, k, b);
    GrownMark(sb, s, i, k, b, c);
    GrownSlot(sb, s, i, k, b, i, k);
    if c == b {
      assert ValidAt(r, i, k) && Slot(r, i, k) == c;
    } else {
      var j: nat, l: nat :| ValidAt(s, j, l) && Slot(s, j, l) == c;
      GrownSlot(sb, s, i, k, b, j, l);
      assert ValidAt(r, j, l) && Slot(r, j, l) == c;
    }
  }

  /** Giving a free block to an empty slot keeps the invariant and everything that was there. */
  lemma {:induction false} GrownInv(sb: Super, s: Fs, i: nat, k: nat, b: Word)
    requires Inv(sb, s) && CanGrow(sb, s, i, k, b)
    ensures Inv(sb, Grown(sb, s, i, k, b)) && Extends(s, Grown(sb, s, i, k, b), i)
  {
    hide SlotsOk, Separate, MetaMarked, AllFilled, Owned, Extends, Marked;
    GrownCanLink(sb, s, i, k, b);
    TakenSound(sb, s, b);
    TakenExtends(sb, s, b, i);
    var t := Taken(sb, s, b);
    LinkedSound(sb, t, i, k, b);
    LinkedExtends(sb, t, i, k, b);
    ExtendsTrans(s, t, Linked(t, i, k, b), i);
    forall c: nat | sb.datastart <= c < sb.size && Marked(sb, Grown(sb, s, i, k, b).disk, c)
      ensures Owned(Grown(sb, s, i, k, b), c)
    {
      GrownNoLeak(sb, s, i, k, b, c);
    }
  }

  /** The inode blocks, which lie below the bitmap, are as before. */
  ghost predicate SameHead(sb: Super, s: Fs, r: Fs) {
    |s.disk| == |r.disk| == sb.size && sb.bmapstart <= sb.size && forall c: nat :: c < sb.bmapstart ==>
        r.disk[c] == s.disk[c]
  }

  lemma {:induction false} GrownHead(sb: Super, s: Fs, i: nat, k: nat, b: Word)
    requires CanGrow(sb, s, i, k, b) && SlotsOk(sb, s)
    ensures SameHead(sb, s, Grown(sb, s, i, k, b))
  {
    assert ValidAt(s, i, NDIRECT);
    assert SlotOk(sb, s, i, NDIRECT);
    forall c: nat | c < sb.bmapstart ensures Grown(sb, s, i, k, b).disk[c] == s.disk[c] {
      WithMarkElsewhere(sb, s.disk, b, true, c);
    }
  }

  // ---- states with the same slots and marks

  ghost predicate SameShape(sb: Super, s: Fs, r: Fs)
    requires Sized(sb, s) && Sized(sb, r)
  {
    && (forall j: nat :: j < |s.inodes| ==> r.inodes[j].size == s.inodes[j].size)
    && (forall j: nat, l: nat :: ValidAt(s, j, l) ==> Slot(r, j, l) == Slot(s, j, l))
    && (forall c: nat :: c < sb.size ==> (Marked(sb, r.disk, c) <==> Marked(sb, s.disk, c)))
  }

  lemma {:induction false} SameShapeSlots(sb: Super, s: Fs, r: Fs)
    requires Sized(sb, s) && Sized(sb, r) && SameShape(sb, s, r) && SlotsOk(sb, s) && Separate(s)
    ensures SlotsOk(sb, r) && Separate(r)
  {
    forall j: nat, l: nat | ValidAt(r, j, l) ensures SlotOk(sb, r, j, l) {
      assert ValidAt(s, j, l);
      assert SlotOk(sb, s, j, l);
    }
    forall i: nat, k: nat, j: nat, l: nat | ValidAt(r, i, k) && ValidAt(r, j, l) ensures Apart(r, i, k, j, l) {
      assert ValidAt(s, i, k) && ValidAt(s, j, l);
      assert Apart(s, i, k, j, l);
    }
  }

  lemma {:induction false} SameShapeFilled(sb: Super, s: Fs, r: Fs, j: nat, len: nat)
    requires Sized(sb, s) && Sized(sb, r) && SameShape(sb, s, r) && Filled(s, j, len)
    ensures Filled(r, j, len)
  {
    forall bn: nat | bn * BSIZE < len ensures Slot(r, j, SlotFor(bn)) != 0 {
      assert ValidAt(s, j, SlotFor(bn));
    }
  }

  lemma {:induction false} SameShapeInv(sb: Super, s: Fs, r: Fs)
    requires Inv(sb, s) && Sized(sb, r) && SameShape(sb, s, r)
    ensures Inv(sb, r)
  {
    SameShapeSlots(sb, s, r);
    forall j: nat | j < |r.inodes| ensures Filled(r, j, r.inodes[j].size) {
      SameShapeFilled(sb, s, r, j, s.inodes[j].size);
    }
    forall c: nat | sb.datastart <= c < sb.size && Marked(sb, r.disk, c) ensures Owned(r, c) {
      var j: nat, l: nat :| ValidAt(s, j, l) && Slot(s, j, l) == c;
      assert ValidAt(r, j, l) && Slot(r, j, l) == c;
    }
  }

  // ---- storing into a data block

  function Stored(s: Fs, b: nat, data: Block): (r: Fs)
    requires b < |s.disk|
  {
    s.(disk := s.disk[b := data])
  }

  lemma {:induction false} StoredSlot(sb: Super, s: Fs, i: nat, k: nat, data: Block, j: nat, l: nat)
    requires Sized(sb, s) && Separate(s) && ValidAt(s, i, k) && k != NDIRECT && 0 < Slot(s, i, k) < sb.size
             && ValidAt(s, j, l)
    ensures var r := Stored(s, Slot(s, i, k), data); ValidAt(r, j, l) && Slot(r, j, l) == Slot(s, j, l)
  {
    assert ValidAt(s, j, NDIRECT);
    assert Apart(s, i, k, j, NDIRECT);
  }

  lemma {:induction false} StoredShape(sb: Super, s: Fs, i: nat, k: nat, data: Block)
    requires Sized(sb, s) && Separate(s) && SlotsOk(sb, s) && ValidAt(s, i, k) && k != NDIRECT && Slot(s, i, k) != 0
    ensures sb.datastart <= Slot(s, i, k) < sb.size
    ensures Sized(sb, Stored(s, Slot(s, i, k), data)) && SameShape(sb, s, Stored(s, Slot(s, i, k), data))
  {
    assert SlotOk(sb, s, i, k);
    var r := Stored(s, Slot(s, i, k), data);
    forall j: nat, l: nat | ValidAt(s, j, l) ensures Slot(r, j, l) == Slot(s, j, l) {
      StoredSlot(sb, s, i, k, data, j, l);
    }
    forall c: nat | c < sb.size ensures Marked(sb, r.disk, c) <==> Marked(sb, s.disk, c) {
      SameMarks(sb, s.disk, r.disk, c);
    }
  }

  lemma {:induction false} StoredByte(sb: Super, s: Fs, i: nat, k: nat, data: Block, j: nat, x: nat)
    requires Sized(sb, s) && Separate(s) && ValidAt(s, i, k) && k != NDIRECT && 0 < Slot(s, i, k) < sb.size
    requires j < |s.inodes| && x < MAXFILE * BSIZE
    ensures ByteAt(Stored(s, Slot(s, i, k), data), j, x) ==
            if j == i && SlotFor(x / BSIZE) == k then data[x % BSIZE] else ByteAt(s, j, x)
  {
    var l := SlotFor(x / BSIZE);
    assert ValidAt(s, j, l);
    StoredSlot(sb, s, i, k, data, j, l);
    assert Apart(s, i, k, j, l);
  }
}
