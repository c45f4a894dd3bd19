/** src/common/types.h:129-200 and src/data/disk_manager.cpp:282-295, 321-359, 444-448: a logical block on disk. */
module BlockRecord {
  import opened Bytes

  const BLOCK: nat := 4096
  const BLOCK_HEADER_SIZE: nat := 32
  const BLOCK_MAGIC: bv32 := 0x4F42524B

  /** Largest payload for which the 32-bit size arithmetic of WriteBlock does not wrap (see WriteBufferHoldsBlockExactly). */
  const MAX_DATA_SIZE: nat := TWO_32 - BLOCK - BLOCK_HEADER_SIZE

  /** A logical block as handed to WriteBlock; `level` is the uint8_t of its BlkLevel. */
  datatype Block = Block(id: nat, level: byte, crc: bv32, data: seq<byte>)
  {
    ghost predicate Fits() {
      id < TWO_64 && |data| <= MAX_DATA_SIZE
    }
  }

  datatype ReadResult = ReadOk(id: nat, crc: bv32, data: seq<byte>) | ReadFailed(badMagic: bool)

  /** CalcPhysicalBlocks: header and payload sizes are added as uint32_t. */
  function PhysicalBlocks(dataSize: nat): (n: nat)
    ensures n <= TWO_32 / BLOCK
    ensures dataSize <= MAX_DATA_SIZE ==> n >= 1 && (n - 1) * BLOCK < BLOCK_HEADER_SIZE + dataSize <= n * BLOCK
  {
    ((BLOCK_HEADER_SIZE + dataSize) % TWO_32 + BLOCK - 1) / BLOCK
  }

  /** The uint32_t product that sizes the write buffer is large enough for header and payload exactly up to MAX_DATA_SIZE. */
  lemma WriteBufferHoldsBlockExactly(dataSize: nat)
    requires dataSize < TWO_32
    ensures (PhysicalBlocks(dataSize) * BLOCK) % TWO_32 >= BLOCK_HEADER_SIZE + dataSize <==> dataSize <= MAX_DATA_SIZE
  {
  }

  /** The header at the field offsets of DiskBlockHeader; flags are zero. */
  function EncodeHeader(b: Block): (s: seq<byte>)
    ensures |s| == BLOCK_HEADER_SIZE
  {
    EncodeWord(BLOCK_MAGIC) + Zeros(4) + EncodeLE(b.id, 8) + [b.level] + Zeros(3)
    + EncodeLE(|b.data|, 4) + EncodeWord(b.crc) + Zeros(4)
  }

  datatype Header = Header(magic: bv32, id: nat, dataSize: nat, crc: bv32)

  function DecodeHeader(s: seq<byte>): Header
    requires |s| == BLOCK_HEADER_SIZE
  {
    Header(DecodeWord(s[0..4]), DecodeLE(s[8..16]), DecodeLE(s[20..24]), DecodeWord(s[24..28]))
  }

  lemma DecodeEncodeHeader(b: Block)
    requires b.Fits()
    ensures DecodeHeader(EncodeHeader(b)) == Header(BLOCK_MAGIC, b.id, |b.data|, b.crc)
  {
    var s := EncodeHeader(b);
    assert s[0..4] == EncodeWord(BLOCK_MAGIC);
    assert s[8..16] == EncodeLE(b.id, 8);
    assert s[20..24] == EncodeLE(|b.data|, 4);
    assert s[24..28] == EncodeWord(b.crc);
    DecodeEncodeWord(BLOCK_MAGIC);
    DecodeEncodeWord(b.crc);
    PowerValues();
    DecodeEncodeLE(b.id, 8);
    DecodeEncodeLE(|b.data|, 4);
  }

  /** What WriteBlock sends to the device: header, payload, zeros up to whole physical blocks. */
  function Image(b: Block): (s: seq<byte>)
    requires b.Fits()
    ensures |s| == PhysicalBlocks(|b.data|) * BLOCK
  {
    EncodeHeader(b) + b.data + Zeros(PhysicalBlocks(|b.data|) * BLOCK - BLOCK_HEADER_SIZE - |b.data|)
  }

  /** ReadBlock on the device bytes; a read past the end of the device fails. */
  function ReadFrom(dev: seq<byte>, off: nat): ReadResult {
    if off + BLOCK_HEADER_SIZE > |dev| then ReadFailed(false)
    else
      var hdr := DecodeHeader(dev[off..off + BLOCK_HEADER_SIZE]);
      var start := off + BLOCK_HEADER_SIZE;
      if hdr.magic != BLOCK_MAGIC then ReadFailed(true)
      else if hdr.dataSize > 0 && start + hdr.dataSize > |dev| then ReadFailed(false)
      else ReadOk(hdr.id, hdr.crc, if hdr.dataSize > 0 then dev[start..start + hdr.dataSize] else [])
  }

  lemma SliceOfImage(dev: seq<byte>, off: nat, img: seq<byte>, lo: nat, hi: nat)
    requires off + |img| <= |dev| && dev[off..off + |img|] == img
    requires lo <= hi <= |img|
    ensures dev[off + lo..off + hi] == img[lo..hi]
  {
    forall i | 0 <= i < hi - lo
      ensures dev[off + lo..off + hi][i] == img[lo..hi][i]
    {
      assert dev[off..off + |img|][lo + i] == dev[off + lo + i];
    }
  }

  /** A device that holds the image of a block at `off` reads back that block. */
  lemma ReadsBackImage(dev: seq<byte>, off: nat, b: Block)
    requires b.Fits()
    requires off + |Image(b)| <= |dev|
    requires dev[off..off + |Image(b)|] == Image(b)
    ensures ReadFrom(dev, off) == ReadOk(b.id, b.crc, b.data)
  {
    var img := Image(b);
    SliceOfImage(dev, off, img, 0, BLOCK_HEADER_SIZE);
    SliceOfImage(dev, off, img, BLOCK_HEADER_SIZE, BLOCK_HEADER_SIZE + |b.data|);
    assert img[0..BLOCK_HEADER_SIZE] == EncodeHeader(b);
    assert img[BLOCK_HEADER_SIZE..BLOCK_HEADER_SIZE + |b.data|] == b.data;
    DecodeEncodeHeader(b);
  }

  lemma HeaderFields(dev: seq<byte>, off: nat)
    requires off + BLOCK_HEADER_SIZE <= |dev|
    ensures DecodeHeader(dev[off..off + BLOCK_HEADER_SIZE]) ==
            Header(DecodeWord(dev[off..off + 4]), DecodeLE(dev[off + 8..off + 16]), DecodeLE(dev[off + 20..off + 24]),
                   DecodeWord(dev[off + 24..off + 28]))
  {
    var h := dev[off..off + BLOCK_HEADER_SIZE];
    SliceOfImage(dev, off, h, 0, 4);
    SliceOfImage(dev, off, h, 8, 16);
    SliceOfImage(dev, off, h, 20, 24);
    SliceOfImage(dev, off, h, 24, 28);
  }

  lemma WordExactly(s: seq<byte>, w: bv32)
    requires |s| == 4
    ensures DecodeWord(s) == w <==> s == EncodeWord(w)
  {
    EncodeDecodeWord(s);
    DecodeEncodeWord(w);
  }

  lemma FieldExactly(s: seq<byte>, n: nat)
    requires n < Power256(|s|)
    ensures DecodeLE(s) == n <==> s == EncodeLE(n, |s|)
  {
    EncodeDecodeLE(s);
    DecodeEncodeLE(n, |s|);
  }

  /** The bytes at `off` are those of this header. */
  ghost predicate HoldsHeader(dev: seq<byte>, off: nat, id: nat, n: nat, crc: bv32) {
    && off + BLOCK_HEADER_SIZE <= |dev|
    && dev[off..off + 4] == EncodeWord(BLOCK_MAGIC) && dev[off + 8..off + 16] == EncodeLE(id, 8)
    && dev[off + 20..off + 24] == EncodeLE(n, 4) && dev[off + 24..off + 28] == EncodeWord(crc)
  }

  lemma HeaderExactly(dev: seq<byte>, off: nat, id: nat, n: nat, crc: bv32)
    requires off + BLOCK_HEADER_SIZE <= |dev| && id < TWO_64 && n < TWO_32
    ensures DecodeHeader(dev[off..off + BLOCK_HEADER_SIZE]) == Header(BLOCK_MAGIC, id, n, crc) <==> HoldsHeader(dev, off, id, n, crc)
  {
    HeaderFields(dev, off);
    PowerValues();
    WordExactly(dev[off..off + 4], BLOCK_MAGIC);
    FieldExactly(dev[off + 8..off + 16], id);
    FieldExactly(dev[off + 20..off + 24], n);
    WordExactly(dev[off + 24..off + 28], crc);
  }

  /** A read gives a block exactly if the device holds it there. */
  lemma ReadsBlockExactly(dev: seq<byte>, off: nat, id: nat, crc: bv32, data: seq<byte>)
    requires id < TWO_64 && |data| < TWO_32
    ensures ReadFrom(dev, off) == ReadOk(id, crc, data) <==>
            && HoldsHeader(dev, off, id, |data|, crc)
            && off + BLOCK_HEADER_SIZE + |data| <= |dev|
            && dev[off + BLOCK_HEADER_SIZE..off + BLOCK_HEADER_SIZE + |data|] == data
  {
    if off + BLOCK_HEADER_SIZE <= |dev| {
      HeaderExactly(dev, off, id, |data|, crc);
    }
  }

  /** It fails for the magic number exactly if a whole header is there and its first four bytes are others. */
  lemma BadMagicExactly(dev: seq<byte>, off: nat)
    ensures ReadFrom(dev, off) == ReadFailed(true) <==>
            off + BLOCK_HEADER_SIZE <= |dev| && dev[off..off + 4] != EncodeWord(BLOCK_MAGIC)
  {
    if off + BLOCK_HEADER_SIZE <= |dev| {
      HeaderFields(dev, off);
      WordExactly(dev[off..off + 4], BLOCK_MAGIC);
    }
  }

  /** Where the image of a block has its fields. */
  lemma ImageHolds(b: Block)
    requires b.Fits()
    ensures HoldsHeader(Image(b), 0, b.id, |b.data|, b.crc) && Image(b)[16] == b.level
    ensures Image(b)[BLOCK_HEADER_SIZE..BLOCK_HEADER_SIZE + |b.data|] == b.data
    ensures forall i | BLOCK_HEADER_SIZE + |b.data| <= i < |Image(b)| :: Image(b)[i] == 0
  {
    var img := Image(b);
    assert img[..BLOCK_HEADER_SIZE] == EncodeHeader(b);
    var h := EncodeHeader(b);
    assert h[0..4] == EncodeWord(BLOCK_MAGIC) && h[8..16] == EncodeLE(b.id, 8) && h[16] == b.level;
    assert h[20..24] == EncodeLE(|b.data|, 4) && h[24..28] == EncodeWord(b.crc);
    assert img[0..4] == h[0..4] && img[8..16] == h[8..16] && img[20..24] == h[20..24] && img[24..28] == h[24..28];
  }
}
