/** The free-block bitmap that closes an SFS image: one bit per block, set when the block is free,
    spread over as many bitmap blocks as the image needs. */
module FreeMap {
  import opened Bits

  const BLKBITS: nat := 32768  // SFS_BLKSIZE * CHAR_BIT
  const WORDS: nat := 1024     // 32-bit words in a block

  predicate BlockBit(block: seq<nat>, j: nat) {
    j / 32 < |block| && TestBit(block[j / 32], j % 32)
  }

  predicate MapBit(blocks: seq<seq<nat>>, b: nat) {
    b / BLKBITS < |blocks| && BlockBit(blocks[b / BLKBITS], b % BLKBITS)
  }

  /** One bitmap block: the bits of the image blocks i, i + 1, ... that are free. */
  method MapBlock(i: nat, ninos: nat, nextIno: nat) returns (block: seq<nat>)
    requires i < ninos
    ensures |block| == WORDS && forall w :: w in block ==> w < Pow2(32)
    ensures forall j: nat :: j < BLKBITS ==> (BlockBit(block, j) <==> nextIno <= i + j < ninos)
  {
    hide Or;
    hide TestBit;
    hide Pow2;
    var buffer := new nat[WORDS](_ => 0);
    forall m: nat | m < BLKBITS
      ensures !BlockBit(buffer[..], m)
    {
      NoBits(m % 32);
    }
    if i + BLKBITS > nextIno {
      var start, end := 0, BLKBITS;
      if i < nextIno { start := nextIno - i; }
      if i + BLKBITS > ninos { end := ninos - i; }
      var j := start;
      while j < end
        invariant start <= j && (j <= end || j == start)
        invariant forall k :: 0 <= k < WORDS ==> buffer[k] < Pow2(32)
        invariant forall m: nat :: m < BLKBITS ==> (BlockBit(buffer[..], m) <==> start <= m < j && m < end)
      {
        ghost var before := buffer[..];
        buffer[j / 32] := Or(buffer[j / 32], Pow2(j % 32));
        SetBitFits(before[j / 32], j % 32, 32);
        forall m: nat | m < BLKBITS
          ensures BlockBit(buffer[..], m) <==> BlockBit(before, m) || m == j
        {
          SetBit(before[j / 32], j % 32, m % 32);
        }
        j := j + 1;
      }
    }
    block := buffer[..];
  }

  /** The bitmap loop of close_sfs: bit b is set exactly when block b exists and was never allocated. */
  method WriteFreeMap(ninos: nat, nextIno: nat) returns (blocks: seq<seq<nat>>)
    ensures |blocks| == (ninos + BLKBITS - 1) / BLKBITS
    ensures forall b: nat :: b < |blocks| * BLKBITS ==> (MapBit(blocks, b) <==> nextIno <= b < ninos)
  {
    hide BlockBit;
    blocks := [];
    var i: nat := 0;
    while i < ninos
      invariant i == |blocks| * BLKBITS && (i < ninos + BLKBITS)
      invariant forall b: nat :: b < i ==> (MapBit(blocks, b) <==> nextIno <= b < ninos)
    {
      var block := MapBlock(i, ninos, nextIno);
      ghost var before := blocks;
      blocks := blocks + [block];
      forall b: nat | b < i + BLKBITS
        ensures MapBit(blocks, b) <==> nextIno <= b < ninos
      {
        if b < i {
          assert MapBit(before, b) <==> MapBit(blocks, b);
        } else {
          assert b / BLKBITS == |before| && b % BLKBITS == b - i;
        }
      }
      i := i + BLKBITS;
    }
  }

  /** The number of set bits among the first n. */
  function CountBits(blocks: seq<seq<nat>>, n: nat): nat {
    if n == 0 then 0 else CountBits(blocks, n - 1) + if MapBit(blocks, n - 1) then 1 else 0
  }

  lemma {:induction false} CountRange(blocks: seq<seq<nat>>, n: nat, lo: nat, hi: nat)
    requires forall b: nat :: b < n ==> (MapBit(blocks, b) <==> lo <= b < hi)
    ensures CountBits(blocks, n) == if n <= lo then 0 else if n <= hi then n - lo else if lo <= hi then hi - lo else 0
  {
    hide MapBit;
    if n > 0 { CountRange(blocks, n - 1, lo, hi); }
  }

  /** The population count of the bitmap is the number of blocks never allocated. */
  lemma PopulationIsUnused(blocks: seq<seq<nat>>, ninos: nat, nextIno: nat, unused: nat)
    requires unused + nextIno == ninos && |blocks| == (ninos + BLKBITS - 1) / BLKBITS
    requires forall b: nat :: b < |blocks| * BLKBITS ==> (MapBit(blocks, b) <==> nextIno <= b < ninos)
    ensures CountBits(blocks, |blocks| * BLKBITS) == unused
  {
    CountRange(blocks, |blocks| * BLKBITS, nextIno, ninos);
  }
}
