/** src/data/segment_writer.cpp, segment_engine.cpp and segment_reader.cpp: an append-only log of segment files. */
module SegmentLog {
  import opened Bytes
  import opened Types
  import BlockRecord

  const SEGMENT_HEADER: nat := 4096
  const SEGMENT_FOOTER: nat := 4096
  const FRAME_HEADER: nat := 64
  const ALIGNMENT: nat := 4096

  datatype SegBlock = SegBlock(id: nat, level: BlkLevel, crc: bv32, data: seq<byte>)
  {
    predicate Fits() {
      id < TWO_64 && |data| < TWO_32
    }
  }

  function SegmentMagic(): seq<byte> {
    [0x4F, 0x46, 0x53, 0x53, 0x47, 0x30, 0x30, 0x31]
  }

  function HeaderBytes(id: nat): (s: seq<byte>)
    ensures |s| == SEGMENT_HEADER
  {
    SegmentMagic() + EncodeLE(id, 8) + Zeros(SEGMENT_HEADER - 16)
  }

  function FooterBytes(id: nat, end: nat): (s: seq<byte>)
    ensures |s| == SEGMENT_FOOTER
  {
    SegmentMagic() + EncodeLE(id, 8) + EncodeLE(end, 8) + Zeros(SEGMENT_FOOTER - 24)
  }

  function FrameHeader(b: SegBlock): (s: seq<byte>)
    ensures |s| == FRAME_HEADER
  {
    EncodeLE(b.id, 8) + [LevelByte(b.level)] + Zeros(3) + EncodeLE(|b.data|, 4) + EncodeWord(b.crc) + Zeros(44)
  }

  function Frame(b: SegBlock): (s: seq<byte>)
    ensures |s| == FRAME_HEADER + |b.data|
  {
    FrameHeader(b) + b.data
  }

  function AlignUp(n: nat): (a: nat)
    ensures a % ALIGNMENT == 0 && n <= a < n + ALIGNMENT
  {
    (n + ALIGNMENT - 1) / ALIGNMENT * ALIGNMENT
  }

  // ---- reading ----

  datatype SegReply = SegOk(data: seq<byte>, crc: bv32) | SegFailed(status: Status)

  function ReadSegment(files: map<nat, seq<byte>>, seg: nat, off: nat): SegReply {
    if seg !in files then SegFailed(NotFound)
    else if off + FRAME_HEADER > |files[seg]| then SegFailed(IOError)
    else
      var size := DecodeLE(files[seg][off + 12..off + 16]);
      var data := off + FRAME_HEADER;
      if data + size > |files[seg]| then SegFailed(IOError)
      else SegOk(files[seg][data..data + size], DecodeWord(files[seg][off + 16..off + 20]))
  }

  /** The file holds the frame of `b` at `off`. */
  predicate FramedAt(file: seq<byte>, off: nat, b: SegBlock) {
    off + FRAME_HEADER + |b.data| <= |file| && file[off..off + FRAME_HEADER + |b.data|] == Frame(b)
  }

  lemma FieldsOfFrame(b: SegBlock)
    requires b.Fits()
    ensures DecodeLE(Frame(b)[0..8]) == b.id && Frame(b)[8] == LevelByte(b.level)
    ensures DecodeLE(Frame(b)[12..16]) == |b.data| && DecodeWord(Frame(b)[16..20]) == b.crc
    ensures Frame(b)[FRAME_HEADER..FRAME_HEADER + |b.data|] == b.data
  {
    assert Frame(b)[..FRAME_HEADER] == FrameHeader(b);
    assert Frame(b)[0..8] == FrameHeader(b)[0..8] == EncodeLE(b.id, 8);
    assert Frame(b)[12..16] == FrameHeader(b)[12..16] == EncodeLE(|b.data|, 4);
    assert Frame(b)[16..20] == FrameHeader(b)[16..20] == EncodeWord(b.crc);
    PowerValues();
    DecodeEncodeLE(b.id, 8);
    DecodeEncodeLE(|b.data|, 4);
    DecodeEncodeWord(b.crc);
  }

  /** Header and footer of a segment tell its number, the footer also where its blocks end. */
  lemma HeaderAndFooterRead(id: nat, end: nat)
    requires id < TWO_64 && end < TWO_64
    ensures HeaderBytes(id)[0..8] == SegmentMagic() == FooterBytes(id, end)[0..8]
    ensures DecodeLE(HeaderBytes(id)[8..16]) == id == DecodeLE(FooterBytes(id, end)[8..16])
    ensures DecodeLE(FooterBytes(id, end)[16..24]) == end
  {
    assert HeaderBytes(id)[8..16] == EncodeLE(id, 8) == FooterBytes(id, end)[8..16];
    assert FooterBytes(id, end)[16..24] == EncodeLE(end, 8);
    PowerValues();
    DecodeEncodeLE(id, 8);
    DecodeEncodeLE(end, 8);
  }

  /** A framed block reads back its bytes and its checksum. */
  lemma FramedReadsBack(files: map<nat, seq<byte>>, seg: nat, off: nat, b: SegBlock)
    requires seg in files && FramedAt(files[seg], off, b) && b.Fits()
    ensures ReadSegment(files, seg, off) == SegOk(b.data, b.crc)
  {
    var n := FRAME_HEADER + |b.data|;
    FieldsOfFrame(b);
    BlockRecord.SliceOfImage(files[seg], off, Frame(b), 12, 16);
    BlockRecord.SliceOfImage(files[seg], off, Frame(b), 16, 20);
    BlockRecord.SliceOfImage(files[seg], off, Frame(b), FRAME_HEADER, n);
  }

  /** A read succeeds exactly if the file has such a frame there, and finds nothing exactly if there is no such file. */
  lemma ReadsFrameExactly(files: map<nat, seq<byte>>, seg: nat, off: nat, data: seq<byte>, crc: bv32)
    requires |data| < TWO_32
    ensures ReadSegment(files, seg, off) == SegOk(data, crc) <==>
            && seg in files && off + 64 + |data| <= |files[seg]|
            && files[seg][off + 12..off + 16] == EncodeLE(|data|, 4) && files[seg][off + 16..off + 20] == EncodeWord(crc)
            && files[seg][off + 64..off + 64 + |data|] == data
    ensures ReadSegment(files, seg, off) == SegFailed(NotFound) <==> seg !in files
  {
    if seg in files && off + FRAME_HEADER <= |files[seg]| {
      PowerValues();
      BlockRecord.FieldExactly(files[seg][off + 12..off + 16], |data|);
      BlockRecord.WordExactly(files[seg][off + 16..off + 20], crc);
    }
  }

  // ---- one segment file and its cursor ----

  /** Segment sizes with room for header and footer, and so far below 2^64 that no sum of the fit tests wraps. */
  predicate SizeOk(segmentSize: nat) {
    SEGMENT_HEADER + SEGMENT_FOOTER <= segmentSize && segmentSize + TWO_32 + FRAME_HEADER <= TWO_64
  }

  /** The fit test of WriteBlock, a 64-bit sum. */
  predicate Accepts(maxSize: nat, cursor: nat, b: SegBlock) {
    AlignUp(cursor) + FRAME_HEADER + |b.data| + SEGMENT_FOOTER <= maxSize
  }

  /** The file after the padding and the frame, written where the file ends. */
  function WithFrame(file: seq<byte>, cursor: nat, b: SegBlock): seq<byte> {
    file + Zeros(AlignUp(cursor) - cursor) + Frame(b)
  }

  function FrameStart(file: seq<byte>, cursor: nat): nat {
    |file| + AlignUp(cursor) - cursor
  }

  /** The cursor afterwards: header size and payload size are added as uint32_t. */
  function NextCursor(cursor: nat, b: SegBlock): nat {
    AlignUp(cursor) + (FRAME_HEADER + |b.data|) % TWO_32
  }

  /** The cursor is the end of the file, or has fallen behind it by at least one wrap. */
  predicate InStep(file: seq<byte>, cursor: nat) {
    |file| == cursor || |file| >= cursor + TWO_32
  }

  lemma FramedAtStart(file: seq<byte>, cursor: nat, b: SegBlock)
    ensures FramedAt(WithFrame(file, cursor, b), FrameStart(file, cursor), b)
    ensures file <= WithFrame(file, cursor, b)
  {
    var padded := file + Zeros(AlignUp(cursor) - cursor);
    assert WithFrame(file, cursor, b) == padded + Frame(b);
    assert WithFrame(file, cursor, b) == file + (Zeros(AlignUp(cursor) - cursor) + Frame(b));
  }

  /** A cursor at the end of the file is there again after a block exactly if the block is smaller than 2^32 - 64 bytes. */
  lemma CursorFollowsExactly(file: seq<byte>, cursor: nat, b: SegBlock)
    requires b.Fits() && InStep(file, cursor)
    ensures InStep(WithFrame(file, cursor, b), NextCursor(cursor, b))
    ensures |WithFrame(file, cursor, b)| == NextCursor(cursor, b) <==> |file| == cursor && |b.data| < TWO_32 - FRAME_HEADER
  {
    var n := FRAME_HEADER + |b.data|;
    assert n % TWO_32 == if n < TWO_32 then n else n - TWO_32;
  }

  /** Segments below 4 GiB and 8 KiB never accept a larger one. */
  lemma LargeNeedsLargeSegment(maxSize: nat, cursor: nat, b: SegBlock)
    requires Accepts(maxSize, cursor, b) && cursor >= SEGMENT_HEADER && maxSize < TWO_32 + SEGMENT_HEADER + SEGMENT_FOOTER
    ensures |b.data| < TWO_32 - FRAME_HEADER
  {
  }

  /** After a larger one the next block is reported inside it: at its own start, or one alignment further. */
  lemma NextLandsInside(cursor: nat, b: SegBlock)
    requires TWO_32 - FRAME_HEADER <= |b.data| < TWO_32
    ensures AlignUp(NextCursor(cursor, b)) == AlignUp(cursor) + if |b.data| == TWO_32 - FRAME_HEADER then 0 else ALIGNMENT
    ensures AlignUp(NextCursor(cursor, b)) < AlignUp(cursor) + FRAME_HEADER + |b.data|
  {
    var r := FRAME_HEADER + |b.data| - TWO_32;
    assert (FRAME_HEADER + |b.data|) % TWO_32 == r;
    AlignUpFrom(AlignUp(cursor), r);
  }

  lemma AlignUpFrom(a: nat, r: nat)
    requires a % ALIGNMENT == 0 && r <= ALIGNMENT
    ensures AlignUp(a + r) == a + if r == 0 then 0 else ALIGNMENT
  {
  }

  /** A block is put where it is reported exactly while the cursor is the end of the file. Once the cursor has fallen behind,
    * what a read at the reported place takes for size and checksum was in the file before the block. */
  lemma ReportedWhereWrittenExactly(files: map<nat, seq<byte>>, seg: nat, cursor: nat, b: SegBlock)
    requires seg in files && InStep(files[seg], cursor)
    ensures AlignUp(cursor) == FrameStart(files[seg], cursor) <==> |files[seg]| == cursor
    ensures |files[seg]| != cursor ==>
              var off := AlignUp(cursor);
              && off + FRAME_HEADER <= |files[seg]|
              && match ReadSegment(files[seg := WithFrame(files[seg], cursor, b)], seg, off)
                 case SegOk(data, crc) =>
                   && |data| == DecodeLE(files[seg][off + 12..off + 16])
                   && crc == DecodeWord(files[seg][off + 16..off + 20])
                 case SegFailed(_) => true
  {
    var file, file', off := files[seg], WithFrame(files[seg], cursor, b), AlignUp(cursor);
    if |file| != cursor {
      FramedAtStart(file, cursor, b);
      assert file == file'[..|file|];
      assert file'[off + 12..off + 16] == file[off + 12..off + 16];
      assert file'[off + 16..off + 20] == file[off + 16..off + 20];
    }
  }

  /** A block written after `b` leaves `b` framed where it is. */
  lemma FirstStaysFramed(file: seq<byte>, cursor: nat, b: SegBlock, cursor': nat, b': SegBlock)
    ensures FramedAt(WithFrame(WithFrame(file, cursor, b), cursor', b'), FrameStart(file, cursor), b)
  {
    var file1 := WithFrame(file, cursor, b);
    FramedAtStart(file, cursor, b);
    FramedAtStart(file1, cursor', b');
    assert file1 == WithFrame(file1, cursor', b')[..|file1|];
    FramedKept(file1, WithFrame(file1, cursor', b'), FrameStart(file, cursor), b, |file1|);
  }

  /** A failing input: in a segment of 8 GiB a first block of 2^32 - 64 bytes and a small second one are both accepted and
    * answered the same place, and a read there gives the first. */
  lemma TwoBlocksOnePlace(b: SegBlock, b': SegBlock)
    requires b.Fits() && |b.data| == TWO_32 - FRAME_HEADER && |b'.data| < 0x8000_0000
    ensures var file, cursor1 := HeaderBytes(1), NextCursor(SEGMENT_HEADER, b);
            && Accepts(2 * TWO_32, SEGMENT_HEADER, b) && Accepts(2 * TWO_32, cursor1, b')
            && AlignUp(cursor1) == AlignUp(SEGMENT_HEADER) == SEGMENT_HEADER
            && ReadSegment(map[1 := WithFrame(WithFrame(file, SEGMENT_HEADER, b), cursor1, b')], 1, SEGMENT_HEADER) == SegOk(b.data, b.crc)
  {
    var cursor1 := NextCursor(SEGMENT_HEADER, b);
    NextLandsInside(SEGMENT_HEADER, b);
    FirstStaysFramed(HeaderBytes(1), SEGMENT_HEADER, b, cursor1, b');
    FramedReadsBack(map[1 := WithFrame(WithFrame(HeaderBytes(1), SEGMENT_HEADER, b), cursor1, b')], 1, SEGMENT_HEADER, b);
  }

  /** The file is no shorter, and has the same first `k` bytes. */
  predicate Kept(file: seq<byte>, file': seq<byte>, k: nat) {
    |file| <= |file'| && file[..Min(k, |file|)] == file'[..Min(k, |file|)]
  }

  lemma FramedKept(file: seq<byte>, file': seq<byte>, off: nat, b: SegBlock, k: nat)
    requires FramedAt(file, off, b) && off + FRAME_HEADER + |b.data| <= k && Kept(file, file', k)
    ensures FramedAt(file', off, b)
  {
    var m := Min(k, |file|);
    assert file[off..off + FRAME_HEADER + |b.data|] == file[..m][off..off + FRAME_HEADER + |b.data|];
    assert file'[off..off + FRAME_HEADER + |b.data|] == file'[..m][off..off + FRAME_HEADER + |b.data|];
  }

  /** `file` after `bytes` were written at `at`, where a gap reads as zeros. */
  function Patched(file: seq<byte>, at: nat, bytes: seq<byte>): seq<byte> {
    (if |file| <= at then file + Zeros(at - |file|) else file[..at]) + bytes
    + (if at + |bytes| < |file| then file[at + |bytes|..] else [])
  }

  lemma PatchedKept(file: seq<byte>, at: nat, bytes: seq<byte>, k: nat)
    requires k <= at
    ensures Kept(file, Patched(file, at, bytes), k)
  {
  }

  // ---- the writer ----

  class Directory {
    var files: map<nat, seq<byte>>

    constructor ()
      ensures files == map[]
    {
      files := map[];
    }
  }

  class SegmentWriter {
    const dir: Directory
    const segmentId: nat
    const maxSize: nat
    var currentOffset: nat
    var isSealed: bool

    /** The cursor stays below the footer; until the segment is sealed it is the end of the file, or has fallen behind it. */
    ghost predicate Valid()
      reads this, dir
    {
      && SizeOk(maxSize)
      && segmentId in dir.files && SEGMENT_HEADER <= currentOffset <= maxSize - SEGMENT_FOOTER
      && (!isSealed ==> InStep(dir.files[segmentId], currentOffset))
    }

    /** The next block will be put where it is reported. */
    ghost predicate InOrder()
      reads this, dir
    {
      segmentId in dir.files && |dir.files[segmentId]| == currentOffset
    }

    constructor (dir: Directory, segmentId: nat, maxSize: nat)
      requires SizeOk(maxSize)
      modifies dir
      ensures Valid() && InOrder() && this.dir == dir && this.segmentId == segmentId && this.maxSize == maxSize
      ensures currentOffset == SEGMENT_HEADER && !isSealed
      ensures dir.files == old(dir.files)[segmentId := HeaderBytes(segmentId)]
    {
      this.dir, this.segmentId, this.maxSize := dir, segmentId, maxSize;
      currentOffset, isSealed := SEGMENT_HEADER, false;
      new;
      dir.files := dir.files[segmentId := HeaderBytes(segmentId)];
    }

    predicate IsFull()
      reads this
    {
      currentOffset + FRAME_HEADER + ALIGNMENT > maxSize
    }

    /** WriteBlock, src/data/segment_writer.cpp:45-97: pad to the alignment, then the frame. */
    method WriteBlock(b: SegBlock) returns (status: Status, offset: nat)
      requires Valid() && b.Fits()
      modifies this, dir
      ensures Valid() && isSealed == old(isSealed)
      ensures status == if isSealed then InvalidArgument else if Accepts(maxSize, old(currentOffset), b) then Ok else NoSpace
      ensures status != Ok ==> dir.files == old(dir.files) && currentOffset == old(currentOffset)
      ensures status == Ok ==>
                && offset == AlignUp(old(currentOffset)) && currentOffset == NextCursor(old(currentOffset), b)
                && dir.files == old(dir.files)[segmentId := WithFrame(old(dir.files)[segmentId], old(currentOffset), b)]
                && old(dir.files)[segmentId] <= dir.files[segmentId]
      ensures status == Ok && old(InOrder()) ==> FramedAt(dir.files[segmentId], offset, b)
      ensures status == Ok ==> (InOrder() <==> old(InOrder()) && |b.data| < TWO_32 - FRAME_HEADER)
    {
      offset := 0;
      if isSealed {
        return InvalidArgument, offset;
      }
      var aligned := AlignUp(currentOffset);
      if aligned + FRAME_HEADER + |b.data| > maxSize - SEGMENT_FOOTER {
        return NoSpace, offset;
      }
      ghost var before := dir.files[segmentId];
      FramedAtStart(before, currentOffset, b);
      CursorFollowsExactly(before, currentOffset, b);
      var file := dir.files[segmentId] + Zeros(aligned - currentOffset) + FrameHeader(b) + b.data;
      assert file == WithFrame(before, currentOffset, b);
      dir.files := dir.files[segmentId := file];
      offset, currentOffset := aligned, aligned + (FRAME_HEADER + |b.data|) % TWO_32;
      status := Ok;
    }

    /** Seal, src/data/segment_writer.cpp:99-125: the footer goes to its place, behind a gap of zeros, or over what a cursor
      * that has fallen behind has let pass it; a cursor at the footer leaves it to the end of the file. */
    method Seal()
      requires Valid()
      modifies this, dir
      ensures Valid() && isSealed && currentOffset == old(currentOffset)
      ensures dir.files == if old(isSealed) then old(dir.files) else old(dir.files)[segmentId :=
                Patched(old(dir.files)[segmentId],
                        if currentOffset < maxSize - SEGMENT_FOOTER then maxSize - SEGMENT_FOOTER else |old(dir.files)[segmentId]|,
                        FooterBytes(segmentId, currentOffset))]
      ensures Kept(old(dir.files)[segmentId], dir.files[segmentId], maxSize - SEGMENT_FOOTER)
    {
      if isSealed {
        return;
      }
      var footerPos := maxSize - SEGMENT_FOOTER;
      var file := dir.files[segmentId];
      var at := if currentOffset < footerPos then footerPos else |file|;
      PatchedKept(file, at, FooterBytes(segmentId, currentOffset), footerPos);
      dir.files := dir.files[segmentId := Patched(file, at, FooterBytes(segmentId, currentOffset))];
      isSealed := true;
    }
  }

  // ---- what the segments hold ----

  datatype SegPlace = SegPlace(seg: nat, offset: nat)

  /** A stored block lies aligned behind the header, and its file holds its frame. */
  ghost predicate StoredOk(files: map<nat, seq<byte>>, p: SegPlace, b: SegBlock) {
    && p.seg in files && b.Fits()
    && p.offset % ALIGNMENT == 0 && SEGMENT_HEADER <= p.offset
    && FramedAt(files[p.seg], p.offset, b)
  }

  ghost predicate AllStored(files: map<nat, seq<byte>>, stored: map<SegPlace, SegBlock>) {
    forall p {:trigger StoredOk(files, p, stored[p])} | p in stored :: StoredOk(files, p, stored[p])
  }

  predicate EndsBy(stored: map<SegPlace, SegBlock>, p: SegPlace, end: nat) {
    p in stored && p.offset + FRAME_HEADER + |stored[p].data| <= end
  }

  /** The blocks of segment `seg` lie below `end`. */
  ghost predicate AllBelow(stored: map<SegPlace, SegBlock>, seg: nat, end: nat) {
    forall p {:trigger EndsBy(stored, p, end)} | p in stored && p.seg == seg :: EndsBy(stored, p, end)
  }

  /** Blocks of one segment do not overlap. */
  ghost predicate BlocksApart(stored: map<SegPlace, SegBlock>) {
    forall p, q {:trigger EndsBy(stored, p, q.offset)} | p in stored && q in stored && p.seg == q.seg && p.offset < q.offset ::
      EndsBy(stored, p, q.offset)
  }

  lemma BelowMore(stored: map<SegPlace, SegBlock>, seg: nat, end: nat, end': nat)
    requires AllBelow(stored, seg, end) && end <= end'
    ensures AllBelow(stored, seg, end')
  {
    forall p | p in stored && p.seg == seg
      ensures EndsBy(stored, p, end')
    {
      assert EndsBy(stored, p, end);
    }
  }

  /** Only segment `seg` changes, and only from byte `k` on. */
  ghost predicate ChangesFrom(files: map<nat, seq<byte>>, files': map<nat, seq<byte>>, seg: nat, k: nat) {
    forall id | id in files :: id in files' && if id == seg then Kept(files[id], files'[id], k) else files'[id] == files[id]
  }

  /** Blocks below a change are still there. */
  lemma StoredKept(files: map<nat, seq<byte>>, files': map<nat, seq<byte>>, stored: map<SegPlace, SegBlock>, seg: nat, k: nat)
    requires AllStored(files, stored) && AllBelow(stored, seg, k) && ChangesFrom(files, files', seg, k)
    ensures AllStored(files', stored)
  {
    forall p | p in stored
      ensures StoredOk(files', p, stored[p])
    {
      assert StoredOk(files, p, stored[p]);
      if p.seg == seg {
        assert EndsBy(stored, p, k);
        FramedKept(files[seg], files'[seg], p.offset, stored[p], k);
      }
    }
  }

  /** A block framed behind all others of its segment joins them. */
  lemma StoredAdd(files: map<nat, seq<byte>>, stored: map<SegPlace, SegBlock>, p: SegPlace, b: SegBlock)
    requires AllStored(files, stored) && BlocksApart(stored) && AllBelow(stored, p.seg, p.offset)
    requires StoredOk(files, p, b)
    ensures p !in stored && AllStored(files, stored[p := b]) && BlocksApart(stored[p := b])
    ensures AllBelow(stored[p := b], p.seg, p.offset + FRAME_HEADER + |b.data|)
  {
    assert p in stored ==> EndsBy(stored, p, p.offset);
    var stored' := stored[p := b];
    forall q | q in stored'
      ensures StoredOk(files, q, stored'[q])
      ensures q.seg == p.seg ==> EndsBy(stored', q, p.offset + FRAME_HEADER + |b.data|)
    {
      if q != p {
        assert StoredOk(files, q, stored[q]);
        assert q.seg == p.seg ==> EndsBy(stored, q, p.offset);
      }
    }
    AddApart(stored, p, b);
  }

  lemma AddApart(stored: map<SegPlace, SegBlock>, p: SegPlace, b: SegBlock)
    requires BlocksApart(stored) && AllBelow(stored, p.seg, p.offset)
    ensures BlocksApart(stored[p := b])
  {
    var stored' := stored[p := b];
    forall q, r | q in stored' && r in stored' && q.seg == r.seg && q.offset < r.offset
      ensures EndsBy(stored', q, r.offset)
    {
      assert r != p && r.seg == p.seg ==> EndsBy(stored, r, p.offset);
      assert q != p && r == p ==> EndsBy(stored, q, p.offset);
      assert q != p && r != p ==> EndsBy(stored, q, r.offset);
    }
  }

  lemma BelowFileEnd(files: map<nat, seq<byte>>, stored: map<SegPlace, SegBlock>, seg: nat)
    requires AllStored(files, stored) && seg in files
    ensures AllBelow(stored, seg, |files[seg]|)
  {
    forall p | p in stored && p.seg == seg
      ensures EndsBy(stored, p, |files[seg]|)
    {
      assert StoredOk(files, p, stored[p]);
    }
  }

  /** A frame behind the end of a file leaves every stored block where it is. */
  lemma AppendKeeps(files: map<nat, seq<byte>>, stored: map<SegPlace, SegBlock>, seg: nat, cursor: nat, b: SegBlock)
    requires AllStored(files, stored) && seg in files
    ensures AllStored(files[seg := WithFrame(files[seg], cursor, b)], stored)
  {
    var file := files[seg];
    FramedAtStart(file, cursor, b);
    BelowFileEnd(files, stored, seg);
    StoredKept(files, files[seg := WithFrame(file, cursor, b)], stored, seg, |file|);
  }

  /** With the cursor at the end of the file, the block is stored where it is reported. */
  lemma AppendStores(files: map<nat, seq<byte>>, stored: map<SegPlace, SegBlock>, seg: nat, cursor: nat, b: SegBlock)
    requires AllStored(files, stored) && BlocksApart(stored) && b.Fits()
    requires seg in files && |files[seg]| == cursor >= SEGMENT_HEADER
    ensures var p, files' := SegPlace(seg, AlignUp(cursor)), files[seg := WithFrame(files[seg], cursor, b)];
            && p !in stored && AllStored(files', stored[p := b]) && BlocksApart(stored[p := b])
            && AllBelow(stored[p := b], seg, p.offset + FRAME_HEADER + |b.data|)
  {
    var p, files' := SegPlace(seg, AlignUp(cursor)), files[seg := WithFrame(files[seg], cursor, b)];
    AppendKeeps(files, stored, seg, cursor, b);
    FramedAtStart(files[seg], cursor, b);
    BelowFileEnd(files, stored, seg);
    BelowMore(stored, seg, cursor, p.offset);
    StoredAdd(files', stored, p, b);
  }

  /** The blocks that are not in one of the segments `from` up to `to`. */
  function Without(stored: map<SegPlace, SegBlock>, from: nat, to: nat): (r: map<SegPlace, SegBlock>)
    ensures forall p :: p in r <==> p in stored && !(from <= p.seg < to)
    ensures forall p | p in r :: r[p] == stored[p]
  {
    map p | p in stored && !(from <= p.seg < to) :: stored[p]
  }

  lemma WithoutMore(stored: map<SegPlace, SegBlock>, a: nat, b: nat, c: nat)
    requires a <= b <= c
    ensures Without(Without(stored, a, b), b, c) == Without(stored, a, c)
  {
  }

  /** A segment file that is opened anew loses its own blocks and no others. */
  lemma StoredReused(files: map<nat, seq<byte>>, stored: map<SegPlace, SegBlock>, seg: nat, file: seq<byte>)
    requires AllStored(files, stored) && BlocksApart(stored)
    ensures var stored' := Without(stored, seg, seg + 1);
            AllStored(files[seg := file], stored') && BlocksApart(stored') && AllBelow(stored', seg, SEGMENT_HEADER)
  {
    var stored' := Without(stored, seg, seg + 1);
    forall p | p in stored'
      ensures StoredOk(files[seg := file], p, stored'[p])
    {
      assert StoredOk(files, p, stored[p]);
    }
    forall p, q | p in stored' && q in stored' && p.seg == q.seg && p.offset < q.offset
      ensures EndsBy(stored', p, q.offset)
    {
      assert EndsBy(stored, p, q.offset);
    }
  }

  /** Every block of a segment opened anew fails to read. */
  lemma ReusedIsLost(files: map<nat, seq<byte>>, stored: map<SegPlace, SegBlock>, p: SegPlace)
    requires AllStored(files, stored) && p in stored
    ensures ReadSegment(files[p.seg := HeaderBytes(p.seg)], p.seg, p.offset) == SegFailed(IOError)
  {
    assert StoredOk(files, p, stored[p]);
  }

  lemma StoredReadsBack(files: map<nat, seq<byte>>, stored: map<SegPlace, SegBlock>, p: SegPlace)
    requires AllStored(files, stored) && p in stored
    ensures ReadSegment(files, p.seg, p.offset) == SegOk(stored[p].data, stored[p].crc)
  {
    assert StoredOk(files, p, stored[p]);
    FramedReadsBack(files, p.seg, p.offset, stored[p]);
  }

  /** The index leads to a block of that id, unless its last write went astray. */
  ghost predicate IndexOk(blockIndex: map<nat, SegPlace>, stored: map<SegPlace, SegBlock>, astray: set<nat>, nextSegmentId: nat) {
    forall id | id in blockIndex && id !in astray ::
      blockIndex[id] in stored && stored[blockIndex[id]].id == id && blockIndex[id].seg < nextSegmentId
  }

  /** Blocks, index and strays after a write, where `left` are the blocks of the segments not reused. */
  ghost predicate Recorded(left: map<SegPlace, SegBlock>, index: map<nat, SegPlace>, astray: set<nat>,
                           stored': map<SegPlace, SegBlock>, index': map<nat, SegPlace>, astray': set<nat>,
                           b: SegBlock, lands: bool, status: Status, place: SegPlace) {
    if status != Ok then stored' == left && index' == index && astray' == astray
    else
      && index' == index[b.id := place]
      && (if lands then place !in left && stored' == left[place := b] && astray' == astray - {b.id}
          else stored' == left && astray' == astray + {b.id})
  }

  // ---- where blocks go ----

  /** Where the log ends: no segment is open and `next` will be the first one, or the open one is filled up to `cursor`. */
  datatype LogEnd = Unopened(next: nat) | EndAt(seg: nat, cursor: nat)

  /** The open segment is not full, and the aligned frame of a payload of `n` bytes ends before the footer. */
  predicate HasRoom(e: LogEnd, n: nat, segmentSize: nat) {
    && e.EndAt? && e.cursor + FRAME_HEADER + ALIGNMENT <= segmentSize
    && AlignUp(e.cursor) + FRAME_HEADER + n + SEGMENT_FOOTER <= segmentSize
  }

  /** The next segment that will hold a block: the very first file is skipped when segments are so small that it counts as
    * full from the start. */
  function NewSegment(e: LogEnd, segmentSize: nat): nat {
    match e
    case EndAt(seg, _) => seg + 1
    case Unopened(next) => if SEGMENT_HEADER + FRAME_HEADER + ALIGNMENT > segmentSize then next + 1 else next
  }

  function PlaceFor(e: LogEnd, n: nat, segmentSize: nat): SegPlace {
    if HasRoom(e, n, segmentSize) then SegPlace(e.seg, AlignUp(e.cursor))
    else SegPlace(NewSegment(e, segmentSize), SEGMENT_HEADER)
  }

  function EndAfter(e: LogEnd, n: nat, segmentSize: nat): LogEnd {
    var p := PlaceFor(e, n, segmentSize);
    EndAt(p.seg, p.offset + (FRAME_HEADER + n) % TWO_32)
  }

  /** A block too large for any segment is tried in two; the second one stays open and empty. */
  function EndAfterRefusal(e: LogEnd, segmentSize: nat): LogEnd {
    EndAt(if e.EndAt? && e.cursor + FRAME_HEADER + ALIGNMENT <= segmentSize then e.seg + 1
          else NewSegment(e, segmentSize) + 1, SEGMENT_HEADER)
  }

  /** Once a segment with room is open at `e'`, the rest of WriteBlock is a choice between it and the next. */
  lemma PlaceFromRoom(e: LogEnd, e': LogEnd, n: nat, segmentSize: nat)
    requires e' == if e.EndAt? && e.cursor + FRAME_HEADER + ALIGNMENT <= segmentSize then e
                   else EndAt(NewSegment(e, segmentSize), SEGMENT_HEADER)
    requires e'.cursor >= SEGMENT_HEADER
    ensures var room := AlignUp(e'.cursor) + FRAME_HEADER + n + SEGMENT_FOOTER <= segmentSize;
            var fits := SEGMENT_HEADER + FRAME_HEADER + n + SEGMENT_FOOTER <= segmentSize;
            && (room ==> fits && PlaceFor(e, n, segmentSize) == SegPlace(e'.seg, AlignUp(e'.cursor)))
            && (!room && fits ==> PlaceFor(e, n, segmentSize) == SegPlace(e'.seg + 1, SEGMENT_HEADER))
            && (var p := PlaceFor(e, n, segmentSize); EndAfter(e, n, segmentSize) == EndAt(p.seg, p.offset + (FRAME_HEADER + n) % TWO_32))
            && EndAfterRefusal(e, segmentSize) == EndAt(e'.seg + 1, SEGMENT_HEADER)
            && (HasRoom(e, n, segmentSize) <==> room && e' == e)
  {
    assert AlignUp(SEGMENT_HEADER) == SEGMENT_HEADER;
  }

  /** The log after blocks of these payload sizes, all of them accepted. */
  function EndOf(e: LogEnd, sizes: seq<nat>, segmentSize: nat): LogEnd {
    if sizes == [] then e
    else EndAfter(EndOf(e, sizes[..|sizes| - 1], segmentSize), sizes[|sizes| - 1], segmentSize)
  }

  /** Where block number `i` of them was put. */
  function PlaceOf(e: LogEnd, sizes: seq<nat>, i: nat, segmentSize: nat): SegPlace
    requires i < |sizes|
  {
    PlaceFor(EndOf(e, sizes[..i], segmentSize), sizes[i], segmentSize)
  }

  /** Where the last of these blocks ends when their frames follow each other from `cursor` on, each aligned. */
  function PackedEnd(cursor: nat, sizes: seq<nat>): nat {
    if sizes == [] then cursor
    else AlignUp(PackedEnd(cursor, sizes[..|sizes| - 1])) + 64 + sizes[|sizes| - 1]
  }

  predicate Ordinary(sizes: seq<nat>) {
    forall n | n in sizes :: n + 64 < 0x1_0000_0000
  }

  lemma {:induction false} PackedGrows(cursor: nat, sizes: seq<nat>, i: nat)
    requires i <= |sizes|
    ensures PackedEnd(cursor, sizes[..i]) <= PackedEnd(cursor, sizes)
    decreases |sizes|
  {
    if i < |sizes| {
      PackedGrows(cursor, sizes[..|sizes| - 1], i);
      assert sizes[..|sizes| - 1][..i] == sizes[..i];
    } else {
      assert sizes[..i] == sizes;
    }
  }

  /** Blocks whose aligned frames fit the open segment follow each other in it. */
  lemma {:induction false} EndOfPacked(e: LogEnd, sizes: seq<nat>, segmentSize: nat)
    requires e.EndAt? && Ordinary(sizes) && (sizes == [] || PackedEnd(e.cursor, sizes) + 4096 <= segmentSize)
    ensures EndOf(e, sizes, segmentSize) == EndAt(e.seg, PackedEnd(e.cursor, sizes))
    decreases |sizes|
  {
    if sizes != [] {
      var front, n := sizes[..|sizes| - 1], sizes[|sizes| - 1];
      PackedGrows(e.cursor, sizes, |front|);
      assert n in sizes && forall m | m in front :: m in sizes;
      EndOfPacked(e, front, segmentSize);
      assert (FRAME_HEADER + n) % TWO_32 == 64 + n;
    }
  }

  /** Segment numbers never go down. */
  lemma {:induction false} SegmentsGrow(e: LogEnd, sizes: seq<nat>, i: nat, segmentSize: nat)
    requires e.EndAt? && i <= |sizes|
    ensures EndOf(e, sizes[..i], segmentSize).EndAt? && EndOf(e, sizes, segmentSize).EndAt?
    ensures e.seg <= EndOf(e, sizes[..i], segmentSize).seg <= EndOf(e, sizes, segmentSize).seg
    decreases |sizes|
  {
    if i < |sizes| {
      SegmentsGrow(e, sizes[..|sizes| - 1], i, segmentSize);
      assert sizes[..|sizes| - 1][..i] == sizes[..i];
    } else {
      assert sizes[..i] == sizes;
      if sizes != [] {
        SegmentsGrow(e, sizes[..|sizes| - 1], |sizes| - 1, segmentSize);
        assert sizes[..|sizes| - 1][..|sizes| - 1] == sizes[..|sizes| - 1];
      }
    }
  }

  /** Blocks stay in the open segment exactly if their aligned frames fit it one behind the other, and then lie so. */
  lemma StaysInSegmentExactly(e: LogEnd, sizes: seq<nat>, segmentSize: nat, i: nat)
    requires e.EndAt? && Ordinary(sizes) && sizes != []
    ensures EndOf(e, sizes, segmentSize).EndAt?
    ensures EndOf(e, sizes, segmentSize).seg == e.seg <==> PackedEnd(e.cursor, sizes) + 4096 <= segmentSize
    ensures EndOf(e, sizes, segmentSize).seg == e.seg && i < |sizes| ==>
              PlaceOf(e, sizes, i, segmentSize) == SegPlace(e.seg, AlignUp(PackedEnd(e.cursor, sizes[..i])))
  {
    FitsIfStays(e, sizes, segmentSize);
    if PackedEnd(e.cursor, sizes) + 4096 <= segmentSize {
      EndOfPacked(e, sizes, segmentSize);
      if i < |sizes| {
        PackedPrefix(e, sizes, segmentSize, i);
      }
    }
  }

  lemma PackedPrefix(e: LogEnd, sizes: seq<nat>, segmentSize: nat, i: nat)
    requires e.EndAt? && Ordinary(sizes) && i < |sizes| && PackedEnd(e.cursor, sizes) + 4096 <= segmentSize
    ensures PlaceOf(e, sizes, i, segmentSize) == SegPlace(e.seg, AlignUp(PackedEnd(e.cursor, sizes[..i])))
  {
    PackedGrows(e.cursor, sizes, i);
    PackedGrows(e.cursor, sizes, i + 1);
    assert sizes[..i + 1][..i] == sizes[..i];
    assert forall m | m in sizes[..i] :: m in sizes;
    EndOfPacked(e, sizes[..i], segmentSize);
  }

  lemma {:induction false} FitsIfStays(e: LogEnd, sizes: seq<nat>, segmentSize: nat)
    requires e.EndAt? && Ordinary(sizes) && sizes != []
    ensures EndOf(e, sizes, segmentSize).EndAt?
    ensures EndOf(e, sizes, segmentSize).seg == e.seg ==> PackedEnd(e.cursor, sizes) + 4096 <= segmentSize
    decreases |sizes|
  {
    var front, n := sizes[..|sizes| - 1], sizes[|sizes| - 1];
    SegmentsGrow(e, sizes, |front|, segmentSize);
    SegmentsGrow(e, front, 0, segmentSize);
    assert forall m | m in front :: m in sizes;
    if EndOf(e, sizes, segmentSize).seg == e.seg {
      if front != [] {
        FitsIfStays(e, front, segmentSize);
      }
      EndOfPacked(e, front, segmentSize);
    }
  }

  /** A log without an open segment goes on like an empty segment: the blocks of a new engine fill segment 1 in order. */
  lemma {:induction false} OpensLikeEmpty(next: nat, sizes: seq<nat>, segmentSize: nat)
    requires sizes != [] && 4096 + 64 + 4096 <= segmentSize && 4096 + 64 + sizes[0] + 4096 <= segmentSize
    ensures EndOf(Unopened(next), sizes, segmentSize) == EndOf(EndAt(next, 4096), sizes, segmentSize)
    decreases |sizes|
  {
    var front := sizes[..|sizes| - 1];
    if front == [] {
      assert AlignUp(4096) == 4096;
    } else {
      OpensLikeEmpty(next, front, segmentSize);
    }
  }

  // ---- the engine ----

  class SegmentEngine {
    const dir: Directory
    const segmentSize: nat
    var active: SegmentWriter?
    var nextSegmentId: nat
    var blockIndex: map<nat, SegPlace>
    ghost var stored: map<SegPlace, SegBlock>     // the blocks that lie where they were reported
    ghost var astray: set<nat>                    // the ids whose last write did not

    ghost predicate Settled()
      reads this, dir
    {
      && SizeOk(segmentSize) && nextSegmentId >= 1
      && AllStored(dir.files, stored) && BlocksApart(stored) && IndexOk(blockIndex, stored, astray, nextSegmentId)
    }

    ghost predicate Open()
      reads this, dir, active
    {
      && active != null && active.dir == dir && active.maxSize == segmentSize && active.Valid() && !active.isSealed
      && active.segmentId + 1 == nextSegmentId
    }

    /** How far up blocks may lie in the open segment. */
    ghost function Top(): nat
      requires Open()
      reads this, dir, active
    {
      if active.InOrder() then active.currentOffset else segmentSize - SEGMENT_FOOTER
    }

    ghost predicate Valid()
      reads this, dir, active
    {
      Settled() && (active != null ==> Open() && AllBelow(stored, active.segmentId, Top()))
    }

    /** The open segment is in order. */
    ghost predicate InOrder()
      reads this, dir, active
    {
      active == null || (active.dir == dir && active.InOrder())
    }

    /** No file is left of an earlier engine. */
    ghost predicate OnlyOwn()
      reads this
    {
      forall p | p in stored :: p.seg < nextSegmentId
    }

    /** `earlier` is what the files of an earlier engine hold. */
    constructor (dir: Directory, segmentSize: nat, ghost earlier: map<SegPlace, SegBlock>)
      requires SizeOk(segmentSize) && AllStored(dir.files, earlier) && BlocksApart(earlier)
      ensures Valid() && InOrder() && stored == earlier && this.dir == dir && this.segmentSize == segmentSize
      ensures nextSegmentId == 1 && blockIndex == map[]
    {
      this.dir, this.segmentSize := dir, segmentSize;
      active, nextSegmentId, blockIndex, stored, astray := null, 1, map[], earlier, {};
    }

    ghost function End(): LogEnd
      reads this, active
    {
      if active == null then Unopened(nextSegmentId) else EndAt(active.segmentId, active.currentOffset)
    }

    /** The block will lie where it is reported. */
    ghost predicate Lands(b: SegBlock)
      reads this, dir, active
    {
      !HasRoom(End(), |b.data|, segmentSize) || InOrder()
    }

    /** A new file for the next segment; the writer of the last one is dropped. A file of that number from an earlier engine
      * is truncated. */
    method CreateNewSegment()
      requires Settled()
      modifies this`active, this`nextSegmentId, this`stored, dir
      ensures Valid() && active != null && fresh(active) && active.InOrder() && active.currentOffset == SEGMENT_HEADER
      ensures active.segmentId == old(nextSegmentId)
      ensures stored == Without(old(stored), old(nextSegmentId), nextSegmentId)
    {
      var segId := nextSegmentId;
      StoredReused(dir.files, stored, segId, HeaderBytes(segId));
      nextSegmentId := nextSegmentId + 1;
      stored := Without(stored, segId, segId + 1);
      active := new SegmentWriter(dir, segId, segmentSize);
    }

    method SealActive()
      requires Valid() && active != null
      modifies dir, active
      ensures Settled()
    {
      ghost var files := dir.files;
      active.Seal();
      BelowMore(stored, active.segmentId, old(Top()), segmentSize - SEGMENT_FOOTER);
      StoredKept(files, dir.files, stored, active.segmentId, segmentSize - SEGMENT_FOOTER);
    }

    method RollOver()
      requires Valid() && active != null
      modifies this`active, this`nextSegmentId, this`stored, dir, active
      ensures Valid() && active != null && fresh(active) && active.InOrder() && active.currentOffset == SEGMENT_HEADER
      ensures active.segmentId == old(nextSegmentId)
      ensures stored == Without(old(stored), old(nextSegmentId), nextSegmentId)
    {
      SealActive();
      CreateNewSegment();
    }

    /** The first lines of WriteBlock: a segment is open and not full. */
    method MakeRoom()
      requires Valid()
      modifies this`active, this`nextSegmentId, this`stored, dir, active
      ensures Valid() && active != null
      ensures if old(active != null && !active.IsFull()) then
                && active == old(active) && nextSegmentId == old(nextSegmentId) && active.currentOffset == old(active.currentOffset)
                && active.InOrder() == old(active.InOrder())
              else
                && fresh(active) && active.InOrder()
                && End() == EndAt(NewSegment(old(End()), segmentSize), SEGMENT_HEADER)
      ensures old(nextSegmentId) <= nextSegmentId && stored == Without(old(stored), old(nextSegmentId), nextSegmentId)
    {
      ghost var first := nextSegmentId;
      if active == null {
        CreateNewSegment();
      }
      ghost var next := nextSegmentId;
      if active.IsFull() {
        RollOver();
      }
      WithoutMore(old(stored), first, next, nextSegmentId);
    }

    /** A write to the open segment. */
    method WriteActive(b: SegBlock) returns (status: Status, place: SegPlace)
      requires Valid() && active != null && b.Fits()
      modifies this`blockIndex, this`stored, this`astray, dir, active
      ensures Valid()
      ensures status == if Accepts(segmentSize, old(active.currentOffset), b) then Ok else NoSpace
      ensures active.currentOffset == if status == Ok then NextCursor(old(active.currentOffset), b) else old(active.currentOffset)
      ensures active.InOrder() <==> old(active.InOrder()) && !(status == Ok && |b.data| >= TWO_32 - FRAME_HEADER)
      ensures status == Ok ==> place == SegPlace(active.segmentId, AlignUp(old(active.currentOffset)))
      ensures Recorded(old(stored), old(blockIndex), old(astray), stored, blockIndex, astray, b, old(active.InOrder()), status, place)
    {
      ghost var files, cursor, inOrder := dir.files, active.currentOffset, active.InOrder();
      var offset;
      status, offset := active.WriteBlock(b);
      place := SegPlace(active.segmentId, offset);
      if status != Ok {
        return;
      }
      if inOrder {
        AppendStores(files, stored, active.segmentId, cursor, b);
        stored, astray := stored[place := b], astray - {b.id};
        BelowMore(stored, active.segmentId, offset + FRAME_HEADER + |b.data|, Top());
      } else {
        AppendKeeps(files, stored, active.segmentId, cursor, b);
        astray := astray + {b.id};
      }
      blockIndex := blockIndex[b.id := place];
    }

    /** The rest of it: the write, and if it finds no room the same in a new segment. */
    method WriteOrRoll(b: SegBlock) returns (status: Status, place: SegPlace)
      requires Valid() && active != null && b.Fits()
      modifies this, dir, active
      ensures Valid() && active != null && old(nextSegmentId) <= nextSegmentId
      ensures End() == if status == Ok then EndAt(place.seg, place.offset + (FRAME_HEADER + |b.data|) % TWO_32)
                       else EndAt(old(nextSegmentId), SEGMENT_HEADER)
      ensures var room := Accepts(segmentSize, old(active.currentOffset), b);
              var lands := room ==> old(active.InOrder());
              && status == (if room || Accepts(segmentSize, SEGMENT_HEADER, b) then Ok else NoSpace)
              && (status == Ok ==> place == if room then SegPlace(old(active.segmentId), AlignUp(old(active.currentOffset)))
                                            else SegPlace(old(nextSegmentId), SEGMENT_HEADER))
              && (active.InOrder() <==> lands && !(status == Ok && |b.data| >= TWO_32 - FRAME_HEADER))
              && Recorded(Without(old(stored), old(nextSegmentId), nextSegmentId), old(blockIndex), old(astray),
                          stored, blockIndex, astray, b, lands, status, place)
    {
      status, place := WriteActive(b);
      assert Without(stored, nextSegmentId, nextSegmentId) == stored;
      if status == NoSpace {
        RollOver();
        status, place := WriteActive(b);
      }
    }

    /** Both parts together. */
    method MakeRoomAndWrite(b: SegBlock) returns (status: Status, place: SegPlace)
      requires Valid() && b.Fits()
      modifies this, dir, active
      ensures Valid() && old(nextSegmentId) <= nextSegmentId
      ensures status == if Accepts(segmentSize, SEGMENT_HEADER, b) then Ok else NoSpace
      ensures status == Ok ==> place == PlaceFor(old(End()), |b.data|, segmentSize) && nextSegmentId == place.seg + 1
      ensures End() == if status == Ok then EndAfter(old(End()), |b.data|, segmentSize) else EndAfterRefusal(old(End()), segmentSize)
      ensures Recorded(Without(old(stored), old(nextSegmentId), nextSegmentId), old(blockIndex), old(astray),
                       stored, blockIndex, astray, b, old(Lands(b)), status, place)
      ensures InOrder() <==> old(Lands(b)) && !(status == Ok && |b.data| >= TWO_32 - FRAME_HEADER)
    {
      ghost var first, e := nextSegmentId, End();
      MakeRoom();
      ghost var next, e' := nextSegmentId, End();
      PlaceFromRoom(e, e', |b.data|, segmentSize);
      status, place := WriteOrRoll(b);
      WithoutMore(old(stored), first, next, nextSegmentId);
    }

    /** WriteBlock, src/data/segment_engine.cpp:26-66: it fails exactly on blocks that do not fit an empty segment. While the
      * engine is in order a block it takes gets a place no stored block has and lies there; it stays in order exactly if the
      * block is smaller than 2^32 - 64 bytes. Blocks of reused segments are gone, all others stay. */
    method WriteBlock(b: SegBlock) returns (status: Status, place: SegPlace)
      requires Valid() && b.Fits()
      modifies this, dir, active
      ensures Valid() && old(nextSegmentId) <= nextSegmentId
      ensures status == if 4096 + 64 + |b.data| + 4096 <= segmentSize then Ok else NoSpace
      ensures status == Ok && old(active) != null ==>
                place == if old(active.currentOffset) + 64 + 4096 <= segmentSize
                            && AlignUp(old(active.currentOffset)) + 64 + |b.data| + 4096 <= segmentSize
                         then SegPlace(old(active.segmentId), AlignUp(old(active.currentOffset)))
                         else SegPlace(old(nextSegmentId), 4096)
      ensures status == Ok ==> place == PlaceFor(old(End()), |b.data|, segmentSize)
      ensures End() == if status == Ok then EndAfter(old(End()), |b.data|, segmentSize) else EndAfterRefusal(old(End()), segmentSize)
      ensures status == Ok ==> nextSegmentId == place.seg + 1
      ensures Recorded(Without(old(stored), old(nextSegmentId), nextSegmentId), old(blockIndex), old(astray),
                       stored, blockIndex, astray, b, old(Lands(b)), status, place)
      ensures InOrder() <==> old(Lands(b)) && !(status == Ok && |b.data| >= TWO_32 - FRAME_HEADER)
      ensures segmentSize < TWO_32 + SEGMENT_HEADER + SEGMENT_FOOTER && old(InOrder()) ==> InOrder()
      ensures old(OnlyOwn()) ==> OnlyOwn() && Without(old(stored), old(nextSegmentId), nextSegmentId) == old(stored)
    {
      status, place := MakeRoomAndWrite(b);
    }

    /** ReadBlock, src/data/segment_reader.cpp:21-67: header, then as many bytes as it says. */
    method ReadBlock(seg: nat, offset: nat) returns (r: SegReply)
      requires Valid()
      ensures r == ReadSegment(dir.files, seg, offset)
      ensures SegPlace(seg, offset) in stored ==>
                r == SegOk(stored[SegPlace(seg, offset)].data, stored[SegPlace(seg, offset)].crc)
    {
      if SegPlace(seg, offset) in stored {
        StoredReadsBack(dir.files, stored, SegPlace(seg, offset));
      }
      if seg !in dir.files {
        return SegFailed(NotFound);
      }
      var file := dir.files[seg];
      if offset + FRAME_HEADER > |file| {
        return SegFailed(IOError);
      }
      var dataSize := DecodeLE(file[offset + 12..offset + 16]);
      var crc := DecodeWord(file[offset + 16..offset + 20]);
      if offset + FRAME_HEADER + dataSize > |file| {
        return SegFailed(IOError);
      }
      r := SegOk(file[offset + FRAME_HEADER..offset + FRAME_HEADER + dataSize], crc);
    }
  }
  /** A new engine over the files of an earlier one still reads everything; but it numbers its segments from 1 again, so its
    * first write truncates segment 1, and so on (see SegmentEngine.WriteBlock and ReusedIsLost). */
  method Restart(earlier: SegmentEngine, segmentSize: nat) returns (engine: SegmentEngine)
    requires earlier.Valid() && SizeOk(segmentSize)
    ensures fresh(engine) && engine.Valid() && engine.InOrder()
    ensures engine.dir == earlier.dir && engine.segmentSize == segmentSize
    ensures engine.stored == earlier.stored && engine.nextSegmentId == 1 && engine.blockIndex == map[]
  {
    engine := new SegmentEngine(earlier.dir, segmentSize, earlier.stored);
  }
}
