/** The bytes on disk, as mkfs/mkfs.c writes them and struct dinode of kernel/fs.h lays them out: what the file layer
    reads and writes is this format. */
module DiskFormat {
  import opened Blocks
  import opened FsSpec
  import opened FileSpec

  /** The uint at a byte offset, least significant byte first. */
  function Uint(b: Block, at: nat): (w: nat)
    requires at + 4 <= BSIZE
  {
    var (b0: int, b1: int, b2: int, b3: int) := (b[at], b[at + 1], b[at + 2], b[at + 3]);
    b0 + 0x100 * b1 + 0x1_0000 * b2 + 0x100_0000 * b3
  }

  lemma {:induction false} WordIsUint(b: Block, i: nat)
    requires i < WORDS
    ensures GetWord(b, i) == Uint(b, 4 * i)
  {
  }

  // ---- the bitmap

  /** Byte j of the bitmap block in which mkfs has set the first n bits. */
  function BitmapByte(n: nat, j: nat): (x: nat) {
    if 8 * j + 8 <= n then 255 else if n <= 8 * j then 0 else Pow2(n - 8 * j) - 1
  }

  /** Setting bit n of the bitmap, in the byte that mkfs sets it in. */
  lemma {:induction false} NextBit(x: Byte, k: nat)
    requires k < 8 && x == Pow2(k) - 1 && !BitOf(x, k)
    ensures ByteWith(x, k, true) == Pow2(k + 1) - 1
  {
  }

  lemma {:induction false} EightBits()
    ensures Pow2(8) == 256 && Pow2(0) == 1
  {
    assert Pow2(4) == 16;
    assert Pow2(6) == 64;
  }

  /** A volume of which the first n blocks are marked has the bitmap that balloc of mkfs writes. */
  lemma {:induction false} BitmapOfMkfs(sb: Super, n: nat, j: nat)
    requires ValidSuper(sb) && n < BPB && n <= sb.size && j < BSIZE
    ensures Formatted(sb, n)[sb.bmapstart][j] == BitmapByte(n, j)
  {
    hide Marked, BitOf, Pow2, ByteWith, WithMark, BitmapByte;
    ByteStep(n, j);
    if n > 0 {
      BitmapOfMkfs(sb, n - 1, j);
      var was := Formatted(sb, n - 1);
      if j == (n - 1) / 8 {
        FormattedMarks(sb, n - 1, n - 1);
        MarkIsBit(sb, was, n - 1);
        NextBit(was[sb.bmapstart][j], (n - 1) % 8);
        SetInByte(sb, was, n - 1);
      } else {
        OtherByte(sb, was, n - 1, j);
      }
    }
  }

  /** What one bit more makes of the bytes. */
  lemma {:induction false} ByteStep(n: nat, j: nat)
    ensures n == 0 ==> BitmapByte(n, j) == 0
    ensures n > 0 && j != (n - 1) / 8 ==> BitmapByte(n, j) == BitmapByte(n - 1, j)
    ensures n > 0 && j == (n - 1) / 8 ==>
              BitmapByte(n - 1, j) == Pow2((n - 1) % 8) - 1 && BitmapByte(n, j) == Pow2((n - 1) % 8 + 1) - 1
  {
    hide Pow2;
    EightBits();
    if n > 0 {
      var k := (n - 1) / 8;
      assert n - 1 == 8 * k + (n - 1) % 8;
    }
  }

  lemma {:induction false} MarkIsBit(sb: Super, disk: seq<Block>, b: nat)
    requires ValidSuper(sb) && |disk| == sb.size && b < sb.size && b < BPB
    ensures Marked(sb, disk, b) <==> BitOf(disk[sb.bmapstart][b / 8], b % 8)
  {
  }

  lemma {:induction false} SetInByte(sb: Super, disk: seq<Block>, b: nat)
    requires ValidSuper(sb) && |disk| == sb.size && b < sb.size && b < BPB
    ensures WithMark(sb, disk, b, true)[sb.bmapstart][b / 8] == ByteWith(disk[sb.bmapstart][b / 8], b % 8, true)
  {
    hide ByteWith;
  }

  lemma {:induction false} OtherByte(sb: Super, disk: seq<Block>, b: nat, j: nat)
    requires ValidSuper(sb) && |disk| == sb.size && b < sb.size && b < BPB && j < BSIZE && j != b / 8
    ensures WithMark(sb, disk, b, true)[sb.bmapstart][j] == disk[sb.bmapstart][j]
  {
    hide ByteWith;
  }

  // ---- inodes and files

  /** Where the inode of 64 bytes lies in its block: after type, major, minor and nlink come size and the addresses. */
  function InodeAt(i: nat): (at: nat)
    ensures at + 64 <= BSIZE
  {
    64 * (i % 16)
  }

  /** The block that holds block bn of the file with the inode at offset at of block d: the first twelve addresses are
      in the inode, the others in the block that the thirteenth names. */
  function BlockOnDisk(disk: seq<Block>, d: Block, at: nat, bn: nat): (a: nat)
    requires at + 64 <= BSIZE && bn < 12 + 256
  {
    if bn < 12 then Uint(d, at + 12 + 4 * bn)
    else
      var indirect := Uint(d, at + 60);
      if 0 < indirect < |disk| then Uint(disk[indirect], 4 * (bn - 12)) else 0
  }

  /** The bytes of a file, from the bytes on disk alone. */
  lemma {:induction false} FileOnDisk(sb: Super, s: Fs, i: nat, x: nat)
    requires Sized(sb, s) && i < sb.ninodes && Synced(sb, s, i) && x < MAXFILE * BSIZE
    ensures var (d, at) := (s.disk[sb.inodestart + i / 16], InodeAt(i));
            && s.inodes[i].size == Uint(d, at + 8)
            && var a := BlockOnDisk(s.disk, d, at, x / 1024);
               ByteAt(s, i, x) == if a < |s.disk| then s.disk[a][x % 1024] else 0
  {
    hide GetWord, Uint;
    var d := s.disk[sb.inodestart + i / 16];
    var ino := InodeOnDisk(sb, s.disk, i);
    WordIsUint(d, InodeWord(i));
    var bn := x / 1024;
    if bn < 12 {
      WordIsUint(d, InodeWord(i) + 1 + bn);
      assert ino.addrs[bn] == GetWord(d, InodeWord(i) + 1 + bn);
    } else {
      WordIsUint(d, InodeWord(i) + 1 + 12);
      assert ino.addrs[NDIRECT] == GetWord(d, InodeWord(i) + 1 + NDIRECT);
      var n := ino.addrs[NDIRECT];
      if 0 < n < |s.disk| {
        WordIsUint(s.disk[n], bn - 12);
      }
    }
  }
}
