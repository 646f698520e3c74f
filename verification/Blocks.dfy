/** Disk blocks and the little-endian words the kernel overlays on them.

    A block is BSIZE bytes (kernel/fs.h). The log header and the indirect
    blocks read and write such a block as an array of 32-bit words.
 */
module Blocks {
  const BSIZE := 1024
  const WORDS := 256
  const WORD_LIMIT := 0x1_0000_0000

  type Byte = x: int | 0 <= x < 256
  type Word = x: int | 0 <= x < WORD_LIMIT
  type Block = b: seq<Byte> | |b| == BSIZE witness seq(BSIZE, _ => 0)

  /** The contents of one device, by block number. */
  type Disk = map<nat, Block>

  function Zeros(n: nat): (r: seq<Byte>)
    ensures |r| == n && forall k :: 0 <= k < n ==> r[k] == 0
  {
    if n == 0 then [] else Zeros(n - 1) + [0]
  }

  const ZERO_BLOCK: Block := Zeros(BSIZE)

  datatype Option<+T> = None | Some(value: T)

  function FromBytes(b0: int, b1: int, b2: int, b3: int): (w: int) {
    b0 + 256 * b1 + 65536 * b2 + 16777216 * b3
  }

  function GetWord(b: Block, i: nat): (w: Word)
    requires i < WORDS
  {
    FromBytes(b[4 * i], b[4 * i + 1], b[4 * i + 2], b[4 * i + 3])
  }

  function PutWord(b: Block, i: nat, w: Word): (r: Block)
    requires i < WORDS
  {
    b[..4 * i] + [w % 256, w / 256 % 256, w / 65536 % 256, w / 16777216] + b[4 * i + 4..]
  }

  lemma {:induction false} BytesOfWord(w: Word)
    ensures FromBytes(w % 256, w / 256 % 256, w / 65536 % 256, w / 16777216) == w
  {
    var a := w / 256;
    var b := a / 256;
    assert w / 65536 == b && w / 16777216 == b / 256;
    assert w == 256 * a + w % 256 && a == 256 * b + a % 256 && b == 256 * (b / 256) + b % 256;
  }

  lemma {:induction false} ByteOfPut(b: Block, i: nat, w: Word, k: nat)
    requires i < WORDS && k < BSIZE && !(4 * i <= k < 4 * i + 4)
    ensures PutWord(b, i, w)[k] == b[k]
  {
  }

  /** Storing a word is read back exactly and disturbs no other word. */
  lemma {:induction false} GetPutWord(b: Block, i: nat, w: Word, j: nat)
    requires i < WORDS && j < WORDS
    ensures GetWord(PutWord(b, i, w), j) == if i == j then w else GetWord(b, j)
  {
    if i == j {
      BytesOfWord(w);
    } else {
      ByteOfPut(b, i, w, 4 * j);
      ByteOfPut(b, i, w, 4 * j + 1);
      ByteOfPut(b, i, w, 4 * j + 2);
      ByteOfPut(b, i, w, 4 * j + 3);
    }
  }

  lemma {:induction false} GetWordOfZero(i: nat)
    requires i < WORDS
    ensures GetWord(ZERO_BLOCK, i) == 0
  {
  }
}
