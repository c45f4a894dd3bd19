/** src/client/block_splitter.cpp: a file's bytes cut into slices of one block level. */
module BlockSplitter {
  import opened Bytes
  import opened Types
  import opened Checksum
  import Crc32

  datatype BlockSlice = BlockSlice(level: BlkLevel, fileOffset: nat, dataSize: nat, crc: bv32)

  function Rounded(size: nat, blk: nat): nat
    requires blk > 0
  {
    (size + blk - 1) % TWO_64
  }

  function CountOf(size: nat, blk: nat): (n: nat)
    requires blk > 0
    ensures n < TWO_32
  {
    (Rounded(size, blk) / blk) % TWO_32
  }

  /** The 64-bit sum and the cast to uint32_t may both drop high bits. */
  function BlockCount(size: nat, level: BlkLevel): (n: nat)
    ensures n < TWO_32
  {
    if size == 0 then 0
    else CountOf(size, BlockLevelSize(level))
  }

  /** Piece `i` of `data` cut every `blk` bytes. */
  function Chunk(data: seq<byte>, blk: nat, i: nat): (c: seq<byte>)
    ensures |c| <= blk
  {
    assert (i + 1) * blk == i * blk + blk;
    data[Min(i * blk, |data|)..Min((i + 1) * blk, |data|)]
  }

  function Chunks(data: seq<byte>, blk: nat, k: nat): (cs: seq<seq<byte>>)
    ensures |cs| == k && forall i | 0 <= i < k :: cs[i] == Chunk(data, blk, i)
  {
    seq(k, i requires 0 <= i < k => Chunk(data, blk, i))
  }

  /** How many bytes the slices of a file of `size` bytes cover. */
  function Covered(size: nat, level: BlkLevel): nat {
    Min(BlockCount(size, level) * BlockLevelSize(level), size)
  }

  /** The pieces put together again are the data they were cut from. */
  lemma {:induction false} ChunksTile(data: seq<byte>, blk: nat, k: nat)
    ensures Crc32.Concat(Chunks(data, blk, k)) == data[..Min(k * blk, |data|)]
  {
    if k > 0 {
      ChunksTile(data, blk, k - 1);
      assert Chunks(data, blk, k)[..k - 1] == Chunks(data, blk, k - 1);
      ChunkFollows(data, blk, k - 1);
    }
  }

  lemma ChunkFollows(data: seq<byte>, blk: nat, i: nat)
    ensures data[..Min(i * blk, |data|)] + Chunk(data, blk, i) == data[..Min((i + 1) * blk, |data|)]
  {
    assert (i + 1) * blk == i * blk + blk;
    PrefixExtends(data, Min(i * blk, |data|), Min((i + 1) * blk, |data|));
  }

  lemma PrefixExtends(data: seq<byte>, lo: nat, hi: nat)
    requires lo <= hi <= |data|
    ensures data[..lo] + data[lo..hi] == data[..hi]
  {
  }

  lemma Scale(a: nat, b: nat, blk: nat)
    requires a <= b
    ensures a * blk <= b * blk
  {
    var d := b - a;
    assert b * blk == a * blk + d * blk;
  }

  /** The block count before the cast: enough blocks and no more. */
  lemma Ceiling(size: nat, blk: nat, q: nat)
    requires size > 0 && blk > 0 && q == (size + blk - 1) / blk
    ensures q > 0 && (q - 1) * blk < size <= q * blk
  {
    var r := (size + blk - 1) % blk;
    assert size + blk - 1 == q * blk + r;
    assert q * blk > 0;
    assert (q - 1) * blk == q * blk - blk;
  }

  lemma FewBlocks(size: nat, blk: nat, q: nat)
    requires size <= q * blk && q < TWO_32
    ensures size <= (TWO_32 - 1) * blk
  {
    Scale(q, TWO_32 - 1, blk);
  }

  lemma TooManyBlocks(size: nat, blk: nat, q: nat, count: nat)
    requires q > 0 && (q - 1) * blk < size && q >= TWO_32 > count
    ensures (TWO_32 - 1) * blk < size && count * blk < size
    ensures count > 0 ==> (count - 1) * blk < size
  {
    Scale(TWO_32 - 1, q - 1, blk);
    Scale(count, q - 1, blk);
    if count > 0 {
      Scale(count - 1, q - 1, blk);
    }
  }

  lemma NoBlocks(sum: nat, blk: nat)
    requires sum < blk
    ensures sum / blk == 0
  {
  }

  lemma Wraps(size: nat, blk: nat)
    requires 0 < size < TWO_64 && 0 < blk <= 256 * 1024 * 1024
    ensures Rounded(size, blk) == if size + blk - 1 >= TWO_64 then size + blk - 1 - TWO_64 else size + blk - 1
  {
  }

  lemma CountFacts(size: nat, blk: nat)
    requires 0 < size < TWO_64 && 0 < blk <= 256 * 1024 * 1024
    ensures CountOf(size, blk) > 0 ==> (CountOf(size, blk) - 1) * blk < size
    ensures CountOf(size, blk) * blk >= size <==> size <= (TWO_32 - 1) * blk
  {
    Wraps(size, blk);
    var q := Rounded(size, blk) / blk;
    if size + blk - 1 >= TWO_64 {
      NoBlocks(Rounded(size, blk), blk);
    } else {
      Ceiling(size, blk, q);
      if q < TWO_32 {
        FewBlocks(size, blk, q);
      } else {
        TooManyBlocks(size, blk, q, CountOf(size, blk));
      }
    }
  }

  /** Their number is the rounded-up quotient, cut to 32 bits; sizes within one block of 2^64 give none. */
  lemma BlockCountIs(size: nat, level: BlkLevel, q: nat)
    requires 0 < size < TWO_64 && q > 0
    requires (q - 1) * BlockLevelSize(level) < size <= q * BlockLevelSize(level)
    ensures BlockCount(size, level) == if size + BlockLevelSize(level) > TWO_64 then 0 else q % TWO_32
  {
    var blk := BlockLevelSize(level);
    Wraps(size, blk);
    if size + blk - 1 >= TWO_64 {
      NoBlocks(Rounded(size, blk), blk);
    } else {
      var q' := Rounded(size, blk) / blk;
      Ceiling(size, blk, q');
      SameCeiling(size, blk, q, q');
    }
  }

  lemma SameCeiling(size: nat, blk: nat, q: nat, q': nat)
    requires q > 0 && q' > 0 && (q - 1) * blk < size <= q * blk && (q' - 1) * blk < size <= q' * blk
    ensures q == q'
  {
    if q < q' {
      Scale(q, q' - 1, blk);
    } else if q' < q {
      Scale(q', q - 1, blk);
    }
  }

  /** The slices lie inside the file, and cover all of it exactly when their number fits uint32_t. */
  lemma CoversExactly(size: nat, level: BlkLevel)
    requires size < TWO_64
    ensures BlockCount(size, level) > 0 ==> (BlockCount(size, level) - 1) * BlockLevelSize(level) < size
    ensures Covered(size, level) == size <==> size <= (TWO_32 - 1) * BlockLevelSize(level)
  {
    if size > 0 {
      CountFacts(size, BlockLevelSize(level));
    }
  }

  /** Up to 4 MiB a file gets the least level whose block holds it, beyond that L3; up to 32 MiB it is one block. */
  lemma SelectedLevelIsLeast(size: nat, level: BlkLevel)
    requires size < TWO_64
    ensures var own := SelectBlockLevel(size);
            && (size <= 0x40_0000 ==> size <= BlockLevelSize(own))
            && (size <= 0x40_0000 && size <= BlockLevelSize(level) ==> BlockLevelSize(own) <= BlockLevelSize(level))
            && (size > 0x40_0000 ==> own == L3)
            && (0 < size <= 0x200_0000 ==> BlockCount(size, own) == 1)
  {
    if 0 < size <= 0x200_0000 {
      var blk := BlockLevelSize(SelectBlockLevel(size));
      Wraps(size, blk);
      OneBlock(size + blk - 1, blk);
    }
  }

  lemma OneBlock(sum: nat, blk: nat)
    requires blk <= sum < 2 * blk
    ensures sum / blk == 1
  {
  }

  /** Where slice `i` begins. */
  ghost function SliceStart(size: nat, blk: nat, i: nat): (start: nat)
    ensures start <= size
  {
    if i == 0 then 0
    else
      var last := SliceStart(size, blk, i - 1);
      last + Min(size - last, blk)
  }

  ghost function SliceOf(data: seq<byte>, level: BlkLevel, blk: nat, i: nat): BlockSlice {
    var start, next := SliceStart(|data|, blk, i), SliceStart(|data|, blk, i + 1);
    BlockSlice(level, start, next - start, Sum(data[start..next]))
  }

  lemma {:induction false} SliceStartIs(size: nat, blk: nat, i: nat)
    ensures SliceStart(size, blk, i) == Min(i * blk, size)
  {
    if i > 0 {
      SliceStartIs(size, blk, i - 1);
      assert i * blk == (i - 1) * blk + blk;
    }
  }

  /** A slice describes one piece of the data. */
  lemma SliceIsChunk(data: seq<byte>, level: BlkLevel, blk: nat, i: nat)
    ensures var c, slice := Chunk(data, blk, i), SliceOf(data, level, blk, i);
            && slice.level == level && slice.crc == Sum(c) && slice.dataSize == |c|
            && slice.fileOffset + |c| <= |data| && c == data[slice.fileOffset..slice.fileOffset + |c|]
  {
    SliceStartIs(|data|, blk, i);
    SliceStartIs(|data|, blk, i + 1);
    Scale(i, i + 1, blk);
  }

  /** The first `k` slices of `data`. */
  ghost function Slices(data: seq<byte>, level: BlkLevel, blk: nat, k: nat): (slices: seq<BlockSlice>)
    ensures |slices| == k
  {
    if k == 0 then [] else Slices(data, level, blk, k - 1) + [SliceOf(data, level, blk, k - 1)]
  }

  lemma {:induction false} SliceAt(data: seq<byte>, level: BlkLevel, blk: nat, k: nat, i: nat)
    requires i < k
    ensures Slices(data, level, blk, k)[i] == SliceOf(data, level, blk, i)
  {
    if i < k - 1 {
      SliceAt(data, level, blk, k - 1, i);
    }
  }

  lemma NextSlice(data: seq<byte>, level: BlkLevel, blk: nat, i: nat)
    ensures var start := SliceStart(|data|, blk, i); var n := Min(|data| - start, blk);
            && SliceStart(|data|, blk, i + 1) == start + n
            && Slices(data, level, blk, i + 1) ==
               Slices(data, level, blk, i) + [BlockSlice(level, start, n, Sum(data[start..start + n]))]
  {
    assert SliceStart(|data|, blk, i + 1) == SliceStart(|data|, blk, i) + Min(|data| - SliceStart(|data|, blk, i), blk);
  }

  /** SplitWithLevel, src/client/block_splitter.cpp:26-60. */
  method SplitWithLevel(data: seq<byte>, level: BlkLevel) returns (slices: seq<BlockSlice>)
    requires |data| < TWO_64
    ensures slices == Slices(data, level, BlockLevelSize(level), BlockCount(|data|, level))
  {
    slices := [];
    if |data| == 0 {
      return;
    }
    slices := Cut(data, level, BlockLevelSize(level), BlockCount(|data|, level));
  }

  /** Its loop. */
  method Cut(data: seq<byte>, level: BlkLevel, blkSize: nat, count: nat) returns (slices: seq<BlockSlice>)
    ensures slices == Slices(data, level, blkSize, count)
  {
    slices := [];
    var remaining, offset := |data|, 0;
    for i := 0 to count
      invariant offset == SliceStart(|data|, blkSize, i) && remaining == |data| - offset
      invariant slices == Slices(data, level, blkSize, i)
    {
      NextSlice(data, level, blkSize, i);
      var dataSize := Min(remaining, blkSize);
      var crc := ComputeSum(data[offset..offset + dataSize]);
      slices := slices + [BlockSlice(level, offset, dataSize, crc)];
      offset, remaining := offset + dataSize, remaining - dataSize;
    }
  }
}
