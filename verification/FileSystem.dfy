/** The block and content operations of kernel/fs.c on one device, inside one transaction. */
module FileSystem {
  import opened Blocks
  import opened FsSpec
  import opened FileSpec

  class Volume {
    const sb: Super
    var disk: seq<Block>
    var inodes: seq<INode>

    ghost function View(): (s: Fs)
      reads this
    {
      Fs(disk, inodes)
    }

    /** balloc: the first unmarked block, marked and zeroed; 0 if there is none. */
    method Balloc() returns (r: Word)
      requires Sized(sb, View()) && MetaMarked(sb, disk)
      modifies this`disk
      ensures r == 0 ==> disk == old(disk) && Full(sb, View())
      ensures r != 0 ==> Free(sb, old(View()), r) && View() == Taken(sb, old(View()), r)
                         && forall c: nat :: c < r ==> Marked(sb, old(disk), c)
    {
      hide Marked, WithMark, BitOf;
      var b: nat := 0;
      while b < sb.size
        invariant b % BPB == 0 && disk == old(disk)
        invariant forall c: nat :: c < b && c < sb.size ==> Marked(sb, disk, c)
        decreases sb.size - b
      {
        var data := disk[b / BPB + sb.bmapstart];
        var bi: nat := 0;
        while bi < BPB && b + bi < sb.size
          invariant bi <= BPB && disk == old(disk)
          invariant forall c: nat :: c < b + bi && c < sb.size ==> Marked(sb, disk, c)
        {
          BitHere(sb, disk, b, bi);
          if !BitOf(data[bi / 8], bi % 8) {
            disk := WithMark(sb, disk, b + bi, true);
            Bzero(b + bi);
            return b + bi;
          }
          bi := bi + 1;
        }
        b := b + BPB;
      }
      r := 0;
    }

    method Bzero(b: nat)
      requires b < |disk|
      modifies this`disk
      ensures disk == Zeroed(old(disk), b)
    {
      disk := disk[b := ZERO_BLOCK];
    }

    /** bfree: unmarks b, or panics on a block that is not marked. */
    method Bfree(b: nat) returns (panicked: bool)
      requires Sized(sb, View()) && b < sb.size
      modifies this`disk
      ensures panicked <==> !Marked(sb, old(disk), b)
      ensures disk == if panicked then old(disk) else WithMark(sb, old(disk), b, false)
    {
      var bi := b % BPB;
      if !BitOf(disk[b / BPB + sb.bmapstart][bi / 8], bi % 8) {
        return true;
      }
      disk := WithMark(sb, disk, b, false);
      panicked := false;
    }

    /** bmap's two steps on an address in the inode. */
    method MapDirect(i: nat, k: nat) returns (addr: Word)
      requires Inv(sb, View()) && i < |inodes| && k <= NDIRECT
      modifies this
      ensures Mapped(sb, old(View()), View(), i, k, addr)
    {
      addr := inodes[i].addrs[k];
      if addr == 0 {
        addr := Balloc();
        if addr == 0 {
          return 0;
        }
        inodes := inodes[i := inodes[i].(addrs := inodes[i].addrs[k := addr])];
      }
    }

    /** bmap's last step, on an entry of the indirect block at n. */
    method MapIndirect(i: nat, w: nat, n: Word) returns (addr: Word)
      requires Inv(sb, View()) && i < |inodes| && w < WORDS && n == inodes[i].addrs[NDIRECT] && 0 < n < sb.size
      modifies this
      ensures Mapped(sb, old(View()), View(), i, NDIRECT + 1 + w, addr)
    {
      addr := GetWord(disk[n], w);
      if addr == 0 {
        addr := Balloc();
        if addr != 0 {
          disk := disk[n := PutWord(disk[n], w, addr)];
        }
      }
    }

    /** bmap: the block of file i's bn-th block, allocating what is missing; 0 when the disk is full. */
    method Bmap(i: nat, bn: nat) returns (addr: Word)
      requires Inv(sb, View()) && i < |inodes| && bn < MAXFILE
      modifies this
      ensures Grew(sb, old(View()), View(), i) && ValidAt(View(), i, SlotFor(bn))
      ensures if addr == 0 then Slot(View(), i, SlotFor(bn)) == 0 && Full(sb, View())
              else Slot(View(), i, SlotFor(bn)) == addr
      ensures ValidAt(old(View()), i, SlotFor(bn))
      ensures Slot(old(View()), i, SlotFor(bn)) != 0 ==> View() == old(View())
    {
      hide SlotsOk, Separate, NoLeak, MetaMarked, AllFilled, Extends, Marked, Grown, Slot;
      ghost var s := View();
      if bn < NDIRECT {
        assert ValidAt(s, i, bn);
        addr := MapDirect(i, bn);
        MappedGrew(sb, s, View(), i, bn, addr);
      } else {
        assert ValidAt(s, i, NDIRECT) && ValidAt(s, i, bn + 1);
        var n := MapDirect(i, NDIRECT);
        MappedGrew(sb, s, View(), i, NDIRECT, n);
        IndirectEmpty(s, i, bn + 1);
        IndirectEmpty(View(), i, bn + 1);
        if n == 0 {
          return 0;
        }
        IndirectInside(sb, View(), i);
        ghost var t := View();
        addr := MapIndirect(i, bn - NDIRECT, n);
        MappedGrew(sb, t, View(), i, bn + 1, addr);
        ExtendsTrans(s, t, View(), i);
      }
    }

    /** iupdate: the inode's size and addresses go to its place in the inode blocks. */
    method Iupdate(i: nat)
      requires Sized(sb, View()) && i < |inodes|
      modifies this`disk
      ensures View() == Updated(sb, old(View()), i)
    {
      var n := i / IPB + sb.inodestart;
      disk := disk[n := StoreWords(disk[n], InodeWord(i), [inodes[i].size] + inodes[i].addrs)];
    }

    /** The direct half of itrunc. */
    method TruncDirect(i: nat, ghost s0: Fs) returns (panicked: bool)
      requires Inv(sb, View()) && i < |inodes| && s0 == View()
      modifies this
      ensures !panicked && |inodes| == |s0.inodes| && inodes == s0.inodes[i := inodes[i]]
              && |inodes[i].addrs| == NDIRECT + 1
      ensures (forall l :: 0 <= l < NDIRECT ==> inodes[i].addrs[l] == 0)
              && inodes[i].addrs[NDIRECT] == s0.inodes[i].addrs[NDIRECT]
      ensures Freed(sb, s0, View(), Gone(s0, i, NDIRECT, NDIRECT + 1))
    {
      hide SlotsOk, Separate, NoLeak, MetaMarked, AllFilled, Freed, Marked, Gone;
      FreedNone(sb, s0, i);
      panicked := false;
      var k: nat := 0;
      while k < NDIRECT
        invariant k <= NDIRECT && !panicked
        invariant |inodes| == |s0.inodes| && inodes == s0.inodes[i := inodes[i]] && |inodes[i].addrs| == NDIRECT + 1
        invariant forall l :: 0 <= l < NDIRECT + 1 ==> inodes[i].addrs[l] == if l < k then 0 else s0.inodes[i].addrs[l]
        invariant |disk| == sb.size && Freed(sb, s0, View(), Gone(s0, i, k, NDIRECT + 1))
      {
        GoneDirect(s0, i, k, NDIRECT + 1);
        if inodes[i].addrs[k] != 0 {
          assert ValidAt(s0, i, k);
          NextMarked(sb, s0, View(), i, k, NDIRECT + 1, k);
          ghost var was := View();
          panicked := Bfree(inodes[i].addrs[k]);
          inodes := inodes[i := inodes[i].(addrs := inodes[i].addrs[k := 0])];
          FreeOne(sb, s0, was, Gone(s0, i, k, NDIRECT + 1), s0.inodes[i].addrs[k], inodes);
        }
        k := k + 1;
      }
    }

    /** The loop of itrunc over the entries of the indirect block a. */
    method FreeEntries(i: nat, a: Block, ghost s0: Fs) returns (panicked: bool)
      requires Inv(sb, s0) && i < |s0.inodes| == |inodes| && |disk| == sb.size && s0.inodes[i].addrs[NDIRECT] != 0
      requires Sized(sb, View()) && s0.inodes[i].addrs[NDIRECT] < |s0.disk| && a == s0.disk[s0.inodes[i].addrs[NDIRECT]]
      requires Freed(sb, s0, View(), Gone(s0, i, NDIRECT, NDIRECT + 1))
      modifies this`disk
      ensures !panicked && |disk| == sb.size && Sized(sb, View()) && Freed(sb, s0, View(), Gone(s0, i, NDIRECT, SLOTS))
    {
      hide SlotsOk, Separate, NoLeak, MetaMarked, AllFilled, Marked, Gone, Freed;
      panicked := false;
      var j: nat := 0;
      while j < WORDS
        invariant j <= WORDS && !panicked && inodes == old(inodes) && |disk| == sb.size && Sized(sb, View())
        invariant Freed(sb, s0, View(), Gone(s0, i, NDIRECT, NDIRECT + 1 + j))
      {
        ghost var k: nat := NDIRECT + 1 + j;
        EntryIs(sb, s0, i, j);
        GoneIndirect(s0, i, NDIRECT, k);
        if GetWord(a, j) != 0 {
          NextMarked(sb, s0, View(), i, NDIRECT, k, k);
          FreeOne(sb, s0, View(), Gone(s0, i, NDIRECT, k), GetWord(a, j), inodes);
          panicked := Bfree(GetWord(a, j));
        }
        j := j + 1;
      }
    }

    /** The indirect half of itrunc, for an inode that has an indirect block. */
    method TruncIndirect(i: nat, ghost s0: Fs) returns (panicked: bool)
      requires Inv(sb, s0) && i < |s0.inodes| == |inodes| && |disk| == sb.size && s0.inodes[i].addrs[NDIRECT] != 0
      requires Freed(sb, s0, View(), Gone(s0, i, NDIRECT, NDIRECT + 1))
      requires Sized(sb, View()) && inodes[i].addrs[NDIRECT] == s0.inodes[i].addrs[NDIRECT]
      modifies this`disk
      ensures !panicked && Freed(sb, s0, View(), AllGone(s0, i))
    {
      hide SlotsOk, Separate, NoLeak, MetaMarked, AllFilled, Marked, Gone;
      assert ValidAt(s0, i, NDIRECT) && Slot(s0, i, NDIRECT) == inodes[i].addrs[NDIRECT];
      IndirectInside(sb, s0, i);
      NextMarked(sb, s0, View(), i, NDIRECT, NDIRECT + 1, NDIRECT);
      var a := disk[inodes[i].addrs[NDIRECT]];
      assert a == s0.disk[inodes[i].addrs[NDIRECT]];
      panicked := FreeEntries(i, a, s0);
      NextMarked(sb, s0, View(), i, NDIRECT, SLOTS, NDIRECT);
      FreeOne(sb, s0, View(), Gone(s0, i, NDIRECT, SLOTS), inodes[i].addrs[NDIRECT], inodes);
      panicked := Bfree(inodes[i].addrs[NDIRECT]);
    }

    /** itrunc: frees exactly the file's blocks, never one that is free already, and stores the emptied inode. */
    method Itrunc(i: nat) returns (panicked: bool)
      requires Inv(sb, View()) && i < |inodes|
      modifies this
      ensures !panicked && Inv(sb, View()) && Truncated(sb, old(View()), View(), i)
      ensures Synced(sb, View(), i)
      ensures forall j: nat :: j < sb.ninodes && j != i ==> InodeOnDisk(sb, disk, j) == InodeOnDisk(sb, old(disk), j)
    {
      hide SlotsOk, Separate, NoLeak, MetaMarked, AllFilled, Marked, Gone;
      ghost var s0 := View();
      panicked := TruncDirect(i, s0);
      if inodes[i].addrs[NDIRECT] != 0 {
        panicked := TruncIndirect(i, s0);
        inodes := inodes[i := inodes[i].(addrs := inodes[i].addrs[NDIRECT := 0])];
      }
      inodes := inodes[i := inodes[i].(size := 0)];
      AllFreed(sb, s0, View(), i);
      ghost var s := View();
      TruncatedUpdated(sb, s0, s, i);
      UpdatedSynced(sb, s, i, i);
      Iupdate(i);
      TruncatedInv(sb, s0, View(), i);
      forall j: nat | j < sb.ninodes && j != i ensures InodeOnDisk(sb, disk, j) == InodeOnDisk(sb, s0.disk, j) {
        UpdatedSynced(sb, s, i, j);
        SameInode(sb, s0.disk, s.disk, j);
      }
    }

    /** readi: the file's bytes from off on, at most n; nothing is allocated. */
    method Readi(i: nat, offset: Word, count: Word) returns (dst: seq<Byte>)
      requires Inv(sb, View()) && i < |inodes|
      modifies this
      ensures View() == old(View()) && Filled(View(), i, inodes[i].size)
      ensures dst == if offset > inodes[i].size || offset + count >= WORD_LIMIT then []
                     else if offset + count > inodes[i].size then Contents(View(), i)[offset..]
                     else Contents(View(), i)[offset..offset + count]
    {
      hide SlotsOk, Separate, NoLeak, MetaMarked, Marked, Slot, ByteAt, Extends, Range;
      dst := [];
      var size := inodes[i].size;
      assert Filled(View(), i, size);
      if offset > size || (offset + count) % WORD_LIMIT < offset {
        return;
      }
      var n := if offset + count > size then size - offset else count;
      var off, tot := offset, 0;
      ghost var c := Contents(View(), i);
      while tot < n
        invariant 0 <= tot <= n && off == offset + tot && View() == old(View())
        invariant dst == c[offset..offset + tot]
      {
        var m := if n - tot < BSIZE - off % BSIZE then n - tot else BSIZE - off % BSIZE;
        ChunkRead(sb, View(), i, size, off, m);
        var addr := Bmap(i, off / BSIZE);
        if addr == 0 {
          break;
        }
        assert c[offset..off] + c[off..off + m] == c[offset..off + m];
        dst := dst + disk[addr][off % BSIZE..off % BSIZE + m];
        tot, off := tot + m, off + m;
      }
    }

    /** One round of writei's loop: bytes d at offset off of a file of which len bytes are there. */
    method WriteChunk(i: nat, off: nat, d: seq<Byte>, ghost len: nat) returns (ok: bool)
      requires Inv(sb, View()) && i < |inodes| && off <= len && Filled(View(), i, len)
      requires 0 < |d| <= BSIZE - off % BSIZE && off + |d| <= MAXFILE * BSIZE
      modifies this
      ensures Inv(sb, View()) && OthersKept(old(View()), View(), i) && SameHead(sb, old(View()), View())
      ensures inodes[i].size == old(inodes[i].size)
      ensures if ok then Filled(View(), i, Max(len, off + |d|))
                         && Range(View(), i, Max(len, off + |d|)) == Splice(Range(old(View()), i, len), off, d)
              else Full(sb, View()) && Filled(View(), i, len) && Range(View(), i, len) == Range(old(View()), i, len)
    {
      hide SlotsOk, Separate, NoLeak, MetaMarked, AllFilled, Marked, Slot, Range, Splice, Filled, OthersKept, Patched;
      ghost var s := View();
      var addr := Bmap(i, off / BSIZE);
      ghost var t := View();
      ExtendsOthers(sb, s, t, i);
      if addr == 0 {
        ExtendsBytes(sb, s, t, i, i, len);
        return false;
      }
      ReadyForChunk(sb, s, t, i, len, off, |d|);
      ChunkWritten(sb, t, i, len, off, d);
      StoredOthers(sb, t, i, SlotFor(off / BSIZE), Patched(disk[addr], off % BSIZE, d));
      StoredHead(sb, t, i, SlotFor(off / BSIZE), Patched(disk[addr], off % BSIZE, d));
      disk := disk[addr := Patched(disk[addr], off % BSIZE, d)];
      OthersTrans(s, t, View(), i);
      ok := true;
    }

    /** The end of writei: the size covers what has been written, and the inode is stored. */
    method FinishWrite(i: nat, off: nat)
      requires Inv(sb, View()) && i < |inodes| && Filled(View(), i, Max(inodes[i].size, off))
      modifies this
      ensures Inv(sb, View()) && OthersKept(old(View()), View(), i) && Filled(View(), i, inodes[i].size)
      ensures Contents(View(), i) == Range(old(View()), i, Max(old(inodes[i].size), off))
      ensures Full(sb, old(View())) ==> Full(sb, View())
      ensures Synced(sb, View(), i)
      ensures forall j: nat :: j < sb.ninodes && j != i ==> InodeOnDisk(sb, disk, j) == InodeOnDisk(sb, old(disk), j)
    {
      hide SlotsOk, Separate, NoLeak, MetaMarked, Marked, Slot, Range, OthersKept;
      ghost var s := View();
      ghost var len: nat := Max(inodes[i].size, off);
      if off > inodes[i].size {
        inodes := inodes[i := inodes[i].(size := off)];
      }
      assert View() == Resized(s, i, len);
      ResizedInv(sb, s, i, len);
      ghost var t := View();
      Iupdate(i);
      UpdatedKeeps(sb, t, i, i);
      UpdatedOthers(sb, t, i);
      OthersTrans(s, t, View(), i);
      UpdatedSynced(sb, t, i, i);
      forall j: nat | j < sb.ninodes && j != i ensures InodeOnDisk(sb, disk, j) == InodeOnDisk(sb, s.disk, j) {
        UpdatedSynced(sb, t, i, j);
      }
      UpdatedShape(sb, t, i);
    }

    /** writei's loop and what follows it, for a write that is within bounds. */
    method WriteAll(i: nat, src: seq<Byte>, offset: Word) returns (tot: nat)
      requires Inv(sb, View()) && i < |inodes| && offset <= inodes[i].size && offset + |src| <= MAXFILE * BSIZE
      modifies this
      ensures tot <= |src| && Inv(sb, View()) && OthersKept(old(View()), View(), i)
              && Filled(old(View()), i, old(inodes[i].size))
      ensures Filled(View(), i, inodes[i].size)
      ensures Contents(View(), i) == Splice(Contents(old(View()), i), offset, src[..tot])
      ensures tot < |src| ==> Full(sb, View())
      ensures Synced(sb, View(), i)
      ensures forall j: nat :: j < sb.ninodes && j != i ==> InodeOnDisk(sb, disk, j) == InodeOnDisk(sb, old(disk), j)
    {
      hide SlotsOk, Separate, NoLeak, MetaMarked, Marked, Slot, Range, Splice, OthersKept;
      ghost var s0 := View();
      assert Filled(s0, i, s0.inodes[i].size);
      OthersSelf(s0, i);
      HeadSelf(sb, s0);
      ghost var size: nat := inodes[i].size;
      ghost var c := Range(s0, i, size);
      SpliceNothing(c, offset);
      var off: nat := offset;
      tot := 0;
      while tot < |src|
        invariant tot <= |src| && off == offset + tot && Inv(sb, View()) && i < |inodes| && inodes[i].size == size
        invariant OthersKept(s0, View(), i) && SameHead(sb, s0, View())
        invariant Filled(View(), i, Max(size, off)) && Range(View(), i, Max(size, off)) == Splice(c, offset, src[..tot])
      {
        var m := if |src| - tot < BSIZE - off % BSIZE then |src| - tot else BSIZE - off % BSIZE;
        ghost var s := View();
        var ok := WriteChunk(i, off, src[tot..tot + m], Max(size, off));
        OthersTrans(s0, s, View(), i);
        if !ok {
          break;
        }
        SpliceMore(c, offset, src[..tot], src[tot..tot + m]);
        assert src[..tot] + src[tot..tot + m] == src[..tot + m];
        tot, off := tot + m, off + m;
      }
      ghost var s := View();
      FinishWrite(i, off);
      OthersTrans(s0, s, View(), i);
      forall j: nat | j < sb.ninodes && j != i ensures InodeOnDisk(sb, disk, j) == InodeOnDisk(sb, s0.disk, j) {
        SameInode(sb, s0.disk, s.disk, j);
      }
    }

    /** writei: -1 for an offset past the end, an overflowing range or a file too long; otherwise the bytes it
        reports are spliced in at offset, all of them unless the disk is full. */
    method Writei(i: nat, src: seq<Byte>, offset: Word) returns (r: int)
      requires Inv(sb, View()) && i < |inodes| && |src| < WORD_LIMIT
      modifies this
      ensures Inv(sb, View()) && Filled(View(), i, inodes[i].size) && Filled(old(View()), i, old(inodes[i].size))
      ensures r == -1 <==>
                offset > old(inodes[i].size) || offset + |src| >= WORD_LIMIT || offset + |src| > MAXFILE * BSIZE
      ensures r == -1 ==> View() == old(View())
      ensures r != -1 ==>
                && 0 <= r <= |src| && OthersKept(old(View()), View(), i)
                && Contents(View(), i) == Splice(Contents(old(View()), i), offset, src[..r])
                && (r < |src| ==> Full(sb, View()))
                && Synced(sb, View(), i)
                && forall j: nat :: j < sb.ninodes && j != i ==>
                     InodeOnDisk(sb, disk, j) == InodeOnDisk(sb, old(disk), j)
    {
      hide SlotsOk, Separate, NoLeak, MetaMarked, Marked, Range, Splice, OthersKept;
      assert Filled(View(), i, inodes[i].size);
      if offset > inodes[i].size || (offset + |src|) % WORD_LIMIT < offset {
        return -1;
      }
      if offset + |src| > MAXFILE * BSIZE {
        return -1;
      }
      r := WriteAll(i, src, offset);
    }
  }
}
