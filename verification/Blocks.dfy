// Cutting a file into blocks.
module Blocks {
  import opened Octets

  /** The bytes [start, end) of a file. */
  datatype Block = Block(start: u64, end: u64)

  const KBYTE := 1024
  const BLOCK_SIZE := 1024 * KBYTE

  predicate Contains(b: Block, o: nat) { b.start <= o < b.end }

  /**
   * The loop bound of the SyncRs constructor. The macro BLOCK_SIZE has no parentheses, so the quotient
   * size / BLOCK_SIZE is (size / 1024) * 1024, and the sum goes into 32 bits.
   */
  function LoopBound(size: u64): nat { (size / KBYTE * KBYTE + 1) % TWO_32 }

  /** The number of whole and partial blocks a file has. */
  function BlocksIn(size: nat): nat { (size + BLOCK_SIZE - 1) / BLOCK_SIZE }

  function CutCount(size: u64): nat {
    if size <= BLOCK_SIZE then 1 else Min(LoopBound(size), BlocksIn(size))
  }

  /** Block i of a file. */
  function Nth(size: u64, i: nat): Block
    requires size <= BLOCK_SIZE ==> i == 0
    requires size > BLOCK_SIZE ==> i < BlocksIn(size)
  {
    Block(i * BLOCK_SIZE, Min(size, i * BLOCK_SIZE + BLOCK_SIZE))
  }

  function Cut(size: u64): (bs: seq<Block>)
    ensures |bs| == CutCount(size)
  {
    seq(CutCount(size), i requires 0 <= i < CutCount(size) => Nth(size, i))
  }

  lemma LoopBoundPositive(size: u64)
    ensures 1 <= LoopBound(size)
  {
    var q := size / KBYTE;
    assert (q * KBYTE + 1) % TWO_32 == (q * KBYTE + 1) - (q * KBYTE + 1) / TWO_32 * TWO_32;
  }

  /** The block list of the SyncRs constructor. */
  method CutBlocks(size: u64) returns (block: seq<Block>)
    ensures block == Cut(size)
  {
    if size <= BLOCK_SIZE {
      return [Block(0, size)];
    }
    var num := LoopBound(size);
    LoopBoundPositive(size);
    var offset: u64 := 0;
    var i := 0;
    block := [];
    while i < num
      invariant i <= num && |block| == i && i < BlocksIn(size)
      invariant offset == i * BLOCK_SIZE
      invariant block == Cut(size)[..i]
      decreases num - i
    {
      var end: u64 := Min(size, Add64(offset, BLOCK_SIZE));
      block := block + [Block(offset, end)];
      offset := end;
      if offset >= size {
        break;
      }
      i := i + 1;
    }
  }

  /** The end of the last block. */
  function Reach(size: u64): nat {
    if size <= BLOCK_SIZE then size else Min(size, LoopBound(size) * BLOCK_SIZE)
  }

  /** Every block lies in the file, is at most 1 MiB long, and is empty only for an empty file. */
  lemma BlockShape(size: u64, i: nat)
    requires i < |Cut(size)|
    ensures Cut(size)[i].start <= Cut(size)[i].end <= size && Cut(size)[i].end - Cut(size)[i].start <= 0x10_0000
    ensures size > 0 ==> Cut(size)[i].start < Cut(size)[i].end
  {
    assert Cut(size)[i] == Nth(size, i);
  }

  /** The blocks follow each other from 0 to Reach, and all but the last one are full. */
  lemma CutTiles(size: u64, i: nat)
    requires i < |Cut(size)|
    ensures i == 0 ==> Cut(size)[i].start == 0
    ensures i == |Cut(size)| - 1 ==> Cut(size)[i].end == Reach(size)
    ensures i < |Cut(size)| - 1 ==> Cut(size)[i].end == Cut(size)[i + 1].start == Cut(size)[i].start + 0x10_0000
  {
    assert Cut(size)[i] == Nth(size, i);
    if i < |Cut(size)| - 1 {
      assert Cut(size)[i + 1] == Nth(size, i + 1);
    } else if size > BLOCK_SIZE {
      LastEnd(size, LoopBound(size));
    }
  }

  lemma LastEnd(size: u64, num: nat)
    requires size > BLOCK_SIZE && num >= 1
    ensures Min(size, Min(num, BlocksIn(size)) * BLOCK_SIZE) == Min(size, num * BLOCK_SIZE)
  {
  }

  lemma CutNotEmpty(size: u64)
    ensures |Cut(size)| >= 1
  {
    LoopBoundPositive(size);
  }

  /** The index of the block an offset falls into. */
  function IndexAt(size: u64, o: nat): nat {
    if size <= BLOCK_SIZE then 0 else o / BLOCK_SIZE
  }

  /** An offset lies in exactly one block when it is below Reach, and in none otherwise. */
  lemma CutHolds(size: u64, o: nat, i: nat)
    requires i < |Cut(size)|
    ensures Contains(Cut(size)[i], o) <==> o < Reach(size) && i == IndexAt(size, o)
  {
    assert Cut(size)[i] == Nth(size, i);
    if size > BLOCK_SIZE {
      assert o / BLOCK_SIZE == i <==> i * BLOCK_SIZE <= o < i * BLOCK_SIZE + BLOCK_SIZE;
      assert i < LoopBound(size);
      assert i * BLOCK_SIZE + BLOCK_SIZE <= LoopBound(size) * BLOCK_SIZE;
    }
  }

  lemma IndexInRange(size: u64, o: nat)
    requires o < Reach(size)
    ensures IndexAt(size, o) < |Cut(size)|
  {
    if size > BLOCK_SIZE {
      var i := o / BLOCK_SIZE;
      assert i * BLOCK_SIZE <= o < LoopBound(size) * BLOCK_SIZE;
      assert i < LoopBound(size);
    }
  }

  lemma CutDistinct(size: u64, i: nat, j: nat)
    requires i < j < |Cut(size)|
    ensures Cut(size)[i].end <= Cut(size)[j].start && Cut(size)[i] != Cut(size)[j]
  {
    assert Cut(size)[i] == Nth(size, i) && Cut(size)[j] == Nth(size, j);
    assert (i + 1) * BLOCK_SIZE <= j * BLOCK_SIZE;
  }

  ghost predicate InSomeBlock(size: u64, o: nat) {
    exists i :: 0 <= i < |Cut(size)| && Contains(Cut(size)[i], o)
  }

  lemma InSomeBlockIff(size: u64, o: nat)
    ensures InSomeBlock(size, o) <==> o < Reach(size)
  {
    if o < Reach(size) {
      IndexInRange(size, o);
      CutHolds(size, o, IndexAt(size, o));
    } else {
      forall i | 0 <= i < |Cut(size)| ensures !Contains(Cut(size)[i], o) {
        CutHolds(size, o, i);
      }
    }
  }

  /** What a size must meet for its blocks to cover the file; it can be checked before the file is announced. */
  predicate WholeFileCut(size: u64) {
    size <= BLOCK_SIZE || size <= LoopBound(size) * BLOCK_SIZE
  }

  lemma BlocksCoverFileIff(size: u64)
    ensures (forall o: nat | o < size :: InSomeBlock(size, o)) <==> WholeFileCut(size)
  {
    forall o: nat ensures InSomeBlock(size, o) <==> o < Reach(size) {
      InSomeBlockIff(size, o);
    }
    if !WholeFileCut(size) {
      assert Reach(size) < size;
      assert !InSomeBlock(size, Reach(size));
    }
  }

  /** Every file below 4 GiB is covered. */
  lemma BelowFourGiB(size: u64)
    requires size < TWO_32
    ensures WholeFileCut(size) && Reach(size) == size
  {
    var q := size / KBYTE;
    assert q * KBYTE + 1 <= TWO_32;
    if size > BLOCK_SIZE {
      assert q >= KBYTE;
      assert LoopBound(size) == q * KBYTE + 1;
    }
  }

  /** At 4 GiB the bound has wrapped to one: of the whole file only the first MiB is cut. */
  lemma FourGiBIsCutToOne()
    ensures Cut(TWO_32) == [Block(0, BLOCK_SIZE)] && !WholeFileCut(TWO_32)
  {
    assert TWO_32 / KBYTE * KBYTE + 1 == TWO_32 + 1;
    assert LoopBound(TWO_32) == 1;
  }

  /** And no file of 4 PiB or more is ever covered. */
  lemma FourPiBNeverCovered(size: u64)
    requires size >= TWO_32 * BLOCK_SIZE
    ensures !WholeFileCut(size)
  {
    assert LoopBound(size) < TWO_32;
  }
}
