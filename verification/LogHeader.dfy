/** The on-disk log header of kernel/log.c: a count, then that many block numbers, as 32-bit words. */
module LogHeader {
  import opened Blocks
  import opened CrashSpec

  predicate Fits(lh: seq<nat>) {
    |lh| < WORDS && forall i :: 0 <= i < |lh| ==> lh[i] < WORD_LIMIT
  }

  /** read_head: the count is taken as it stands, so a stale tail of the array is ignored. */
  function Decode(b: Block): (lh: seq<nat>) {
    seq(GetWord(b, 0), i requires 0 <= i < GetWord(b, 0) => if i + 1 < WORDS then GetWord(b, i + 1) else 0)
  }

  /** The first k entries of lh stored after the count. */
  function EncodeEntries(b: Block, lh: seq<nat>, k: nat): (r: Block)
    requires Fits(lh) && k <= |lh|
  {
    if k == 0 then b else PutWord(EncodeEntries(b, lh, k - 1), k, lh[k - 1])
  }

  /** write_head: entries past the count keep their old contents. */
  function Encode(b: Block, lh: seq<nat>): (r: Block) {
    if Fits(lh) then EncodeEntries(PutWord(b, 0, |lh|), lh, |lh|) else b
  }

  lemma {:induction false} EncodeEntriesAt(b: Block, lh: seq<nat>, k: nat, j: nat)
    requires Fits(lh) && k <= |lh| && j < WORDS
    ensures GetWord(EncodeEntries(b, lh, k), j) == if 1 <= j <= k then lh[j - 1] else GetWord(b, j)
  {
    if k > 0 {
      EncodeEntriesAt(b, lh, k - 1, j);
      GetPutWord(EncodeEntries(b, lh, k - 1), k, lh[k - 1], j);
    }
  }

  /** Reading back a stored header gives the list that was stored, whatever the block held before. */
  lemma {:induction false} RoundTrip(b: Block, lh: seq<nat>)
    requires Fits(lh)
    ensures Decode(Encode(b, lh)) == lh
  {
    var c := PutWord(b, 0, |lh|);
    GetPutWord(b, 0, |lh|, 0);
    EncodeEntriesAt(c, lh, |lh|, 0);
    forall i | 0 <= i < |lh| ensures GetWord(Encode(b, lh), i + 1) == lh[i] {
      EncodeEntriesAt(c, lh, |lh|, i + 1);
    }
  }

  /** The log area that initlog sets up from the superblock. */
  function KernelArea(start: nat, cap: nat): (g: LogArea) {
    LogArea(start, cap, WORD_LIMIT, Encode, Decode)
  }

  /** The kernel's header format is one that crash safety needs, as long as it fits a block (initlog checks that). */
  lemma {:induction false} KernelAreaValid(start: nat, cap: nat)
    requires cap < WORDS
    ensures ValidArea(KernelArea(start, cap))
  {
    var g := KernelArea(start, cap);
    forall b: Block, lh: seq<nat> | Storable(g, lh) ensures g.decode(g.encode(b, lh)) == lh {
      RoundTrip(b, lh);
    }
  }

  /** The write_head loop over the header buffer. */
  method WriteHead(b: Block, lh: seq<nat>) returns (hb: Block)
    requires Fits(lh)
    ensures hb == Encode(b, lh)
  {
    hb := PutWord(b, 0, |lh|);
    for i := 0 to |lh|
      invariant hb == EncodeEntries(PutWord(b, 0, |lh|), lh, i)
    {
      hb := PutWord(hb, i + 1, lh[i]);
    }
  }

  /** The read_head loop over the header buffer. */
  method ReadHead(b: Block) returns (lh: seq<nat>)
    requires GetWord(b, 0) < WORDS
    ensures lh == Decode(b)
  {
    hide GetWord;
    lh := [];
    for i := 0 to GetWord(b, 0)
      invariant lh == Decode(b)[..i]
    {
      lh := lh + [GetWord(b, i + 1)];
    }
  }
}
