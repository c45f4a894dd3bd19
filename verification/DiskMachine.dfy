/** src/data/disk_manager.cpp:191-408 as a step machine: what is on the device and in the WAL file survives a crash,
  * the in-memory bitmap, sequence number and the point reached inside an operation do not.
  *
  * A crash may fall between any two steps; device writes and bitmap saves may also be torn, byte by byte.
  */
module DiskMachine {
  import opened Bytes
  import opened Bitmap
  import opened BlockRecord
  import opened Wal
  import DiskLayout

  datatype Config = Config(layout: DiskLayout.Layout, placement: Placement)
  {
    /** A layout Format produces outside its bad sizes, with a bitmap that passes through uint32_t. */
    ghost predicate Sound() {
      layout.Sound() && layout.BitmapBytes() < TWO_32
    }

    function Blocks(): nat {
      layout.dataBlocks
    }

    function BitmapSize(): nat {
      layout.bitmapBlocks * BLOCK
    }

    function DeviceSize(): nat {
      layout.DataOffset() + layout.dataBlocks * BLOCK
    }

    function OffsetOf(start: nat): nat {
      layout.DataOffset() + start * BLOCK
    }

    /** DeleteBlock's and Recover's way back from a byte offset, a uint64_t subtraction. */
    function StartOf(off: nat): (start: nat)
      ensures start < TWO_64 / BLOCK
    {
      (off % TWO_64 + TWO_64 - layout.DataOffset() % TWO_64) % TWO_64 / BLOCK
    }

    /** It finds the extent of every block. */
    lemma StartOfOffset(start: nat)
      requires Sound() && start < Blocks()
      ensures StartOf(OffsetOf(start)) == start
    {
      assert OffsetOf(start) < TWO_64 && OffsetOf(start) - layout.DataOffset() == start * BLOCK;
    }

    function DurableBits(dev: seq<byte>): (bits: seq<bool>)
      requires |dev| == DeviceSize() && layout.dataBlocks <= 8 * BitmapSize()
      ensures |bits| == Blocks()
    {
      Bits(dev[BLOCK..BLOCK + BitmapSize()], Blocks())
    }
  }

  function Size(b: Block): nat {
    PhysicalBlocks(|b.data|)
  }

  /** A write in progress: the block and the start of the extent allocated for it. */
  datatype Write = Write(block: Block, start: nat)

  datatype Phase =
    | Idle
    | Allocated(w: Write)
    | Logged(w: Write, seqNo: nat)      // seqNo 0: the WAL was full, nothing logged
    | DataWritten(w: Write, seqNo: nat)
    | WriteSaving(w: Write)
    | DeleteSaving(start: nat, size: nat)
    | RecoverSaving
    | RecoverReset
    | CloseSaving
  {
    predicate Writing() {
      Allocated? || Logged? || DataWritten? || WriteSaving?
    }

    predicate Saving() {
      WriteSaving? || DeleteSaving? || RecoverSaving? || CloseSaving?
    }
  }

  /** The write in progress owns block `i`, marked in memory. */
  predicate Pending(p: Phase, i: nat) {
    p.Writing() && p.w.start <= i < p.w.start + Size(p.w.block)
  }

  /** The bitmap save in progress changes the bit of block `i`. */
  predicate InFlight(p: Phase, i: nat) {
    match p
    case WriteSaving(w) => w.start <= i < w.start + Size(w.block)
    case DeleteSaving(start, size) => start <= i < start + size
    case _ => false
  }

  datatype Memory =
    | Down
    | Up(bitmap: seq<byte>, nextSeq: nat, phase: Phase)

  /** `live` maps extent starts to the blocks whose write was acknowledged and whose delete was not requested; `leaked`
    * are the blocks crashes left marked on the device without such a block (see CrashStep). */
  datatype State = State(dev: seq<byte>, wal: WalFile, mem: Memory, ghost live: map<nat, Block>, ghost leaked: set<nat>)

  datatype Step =
    | Reopen
    | BeginWrite(block: Block)
    | AppendIntent
    | TearData
    | WriteData
    | FailData
    | CommitIntent
    | TearSave
    | FinishSave
    | BeginDelete(start: nat)
    | BeginRecover
    | ResetWal
    | BeginClose
    | Crash

  /** What the bits become when Recover frees the extents of the uncommitted entries. */
  function Rollback(c: Config, bits: seq<bool>, entries: seq<WalEntry>): (bits': seq<bool>)
    ensures |bits'| == |bits|
    decreases |entries|
  {
    if entries == [] then bits
    else
      var e := entries[0];
      var rest := if e.committed then bits else WithRange(bits, c.StartOf(e.dataOffset), PhysicalBlocks(e.dataSize), false);
      Rollback(c, rest, entries[1..])
  }

  function Intent(c: Config, w: Write): WalHeader {
    NewHeader(w.block.id, c.OffsetOf(w.start), |w.block.data|, w.block.crc)
  }

  predicate WellSized(c: Config, s: State) {
    && |s.dev| == c.DeviceSize()
    && c.layout.dataBlocks <= 8 * c.BitmapSize()
    && (s.mem.Up? ==> |s.mem.bitmap| == c.BitmapSize() && s.mem.nextSeq > 0)
  }

  ghost predicate ReopenStep(c: Config, s: State, s': State) {
    && WellSized(c, s)
    && s.mem.Down?
    && s' == s.(mem := Up(s.dev[BLOCK..BLOCK + c.BitmapSize()],
                          MaxSeqFrom(s.wal, c.layout.walBlocks, 0, 0) + 1, Idle))
  }

  /** First fit in the bitmap in memory; the blocks are marked there only. */
  ghost predicate BeginWriteStep(c: Config, s: State, s': State, block: Block) {
    && WellSized(c, s) && s.mem.Up? && s.mem.phase.Idle? && block.Fits()
    && WellSized(c, s') && s'.mem.Up? && s'.mem.phase.Allocated?
    && var start := s'.mem.phase.w.start;
    && FirstFit(Bits(s.mem.bitmap, c.Blocks()), Size(block), start)
    && Bits(s'.mem.bitmap, c.Blocks()) == WithRange(Bits(s.mem.bitmap, c.Blocks()), start, Size(block), true)
    && s' == s.(mem := s.mem.(bitmap := s'.mem.bitmap, phase := Allocated(Write(block, start))))
  }

  ghost predicate AppendIntentStep(c: Config, s: State, s': State) {
    && WellSized(c, s) && s.mem.Up? && s.mem.phase.Allocated?
    && var st' := Appended(c.placement, c.layout.walBlocks, WalState(s.wal, s.mem.nextSeq), Intent(c, s.mem.phase.w));
    && var seqNo := if InLog(SlotOffset(c.placement, s.mem.nextSeq), c.layout.walBlocks) then s.mem.nextSeq else 0;
    && s' == s.(wal := st'.file, mem := s.mem.(nextSeq := st'.nextSeq, phase := Logged(s.mem.phase.w, seqNo)))
  }

  /** Part of the block image reaches the device, in any byte order. */
  ghost predicate TearDataStep(c: Config, s: State, s': State) {
    && s.mem.Up? && s.mem.phase.Logged? && s.mem.phase.w.block.Fits()
    && Torn(s.dev, c.OffsetOf(s.mem.phase.w.start), Image(s.mem.phase.w.block), s'.dev)
    && s' == s.(dev := s'.dev)
  }

  ghost predicate WriteDataStep(c: Config, s: State, s': State) {
    && s.mem.Up? && s.mem.phase.Logged? && s.mem.phase.w.block.Fits()
    && var off := c.OffsetOf(s.mem.phase.w.start);
    && off + |Image(s.mem.phase.w.block)| <= |s.dev|
    && s' == s.(dev := Overwrite(s.dev, off, Image(s.mem.phase.w.block)),
                mem := s.mem.(phase := DataWritten(s.mem.phase.w, s.mem.phase.seqNo)))
  }

  /** The device rejects the write: the allocation is rolled back, the log entry stays uncommitted. */
  ghost predicate FailDataStep(c: Config, s: State, s': State) {
    && WellSized(c, s) && s.mem.Up? && s.mem.phase.Logged?
    && WellSized(c, s') && s'.mem.Up?
    && Bits(s'.mem.bitmap, c.Blocks()) ==
       WithRange(Bits(s.mem.bitmap, c.Blocks()), s.mem.phase.w.start, Size(s.mem.phase.w.block), false)
    && s' == s.(mem := s.mem.(bitmap := s'.mem.bitmap, phase := Idle))
  }

  ghost predicate CommitIntentStep(c: Config, s: State, s': State) {
    && s.mem.Up? && s.mem.phase.DataWritten?
    && s' == s.(wal := Committed(c.placement, c.layout.walBlocks, s.wal, s.mem.phase.seqNo),
                mem := s.mem.(phase := WriteSaving(s.mem.phase.w)))
  }

  /** Some bytes of the bitmap reach the device. */
  ghost predicate TearSaveStep(c: Config, s: State, s': State) {
    && s.mem.Up? && s.mem.phase.Saving()
    && Torn(s.dev, BLOCK, s.mem.bitmap, s'.dev)
    && s' == s.(dev := s'.dev)
  }

  /** The whole bitmap is on the device; this acknowledges a write. */
  ghost predicate FinishSaveStep(c: Config, s: State, s': State) {
    && s.mem.Up? && s.mem.phase.Saving() && BLOCK + |s.mem.bitmap| <= |s.dev|
    && var saved := s.(dev := Overwrite(s.dev, BLOCK, s.mem.bitmap));
    && match s.mem.phase
       case WriteSaving(w) => s' == saved.(mem := s.mem.(phase := Idle), live := s.live[w.start := w.block])
       case DeleteSaving(_, _) => s' == saved.(mem := s.mem.(phase := Idle))
       case RecoverSaving => s' == saved.(mem := s.mem.(phase := RecoverReset))
       case _ => s' == saved.(mem := Down)
  }

  ghost predicate BeginDeleteStep(c: Config, s: State, s': State, start: nat) {
    && WellSized(c, s) && s.mem.Up? && s.mem.phase.Idle? && start in s.live
    && WellSized(c, s') && s'.mem.Up?
    && Bits(s'.mem.bitmap, c.Blocks()) == WithRange(Bits(s.mem.bitmap, c.Blocks()), start, Size(s.live[start]), false)
    && s' == s.(mem := s.mem.(bitmap := s'.mem.bitmap, phase := DeleteSaving(start, Size(s.live[start]))), live := s.live - {start})
  }

  ghost predicate BeginRecoverStep(c: Config, s: State, s': State) {
    && WellSized(c, s) && s.mem.Up? && s.mem.phase.Idle?
    && WellSized(c, s') && s'.mem.Up?
    && Bits(s'.mem.bitmap, c.Blocks()) ==
       Rollback(c, Bits(s.mem.bitmap, c.Blocks()), ReplayFrom(s.wal, c.layout.walBlocks, 0))
    && s' == s.(mem := s.mem.(bitmap := s'.mem.bitmap, phase := RecoverSaving))
  }

  ghost predicate ResetWalStep(c: Config, s: State, s': State) {
    && s.mem.Up? && s.mem.phase.RecoverReset?
    && s' == s.(wal := map[], mem := s.mem.(nextSeq := 1, phase := Idle))
  }

  ghost predicate BeginCloseStep(c: Config, s: State, s': State) {
    && s.mem.Up? && s.mem.phase.Idle?
    && s' == s.(mem := s.mem.(phase := CloseSaving))
  }

  /** What a crash now would leak: blocks whose bit the save in progress has already set, or not yet cleared. */
  ghost function Left(c: Config, s: State): set<nat> {
    if WellSized(c, s) && s.mem.Up? then
      set i: nat | i < c.Blocks() && InFlight(s.mem.phase, i) && c.DurableBits(s.dev)[i]
    else {}
  }

  ghost predicate CrashStep(c: Config, s: State, s': State) {
    s' == s.(mem := Down, leaked := s.leaked + Left(c, s))
  }

  ghost predicate NextStep(c: Config, s: State, s': State, step: Step) {
    match step
    case Reopen => ReopenStep(c, s, s')
    case BeginWrite(block) => BeginWriteStep(c, s, s', block)
    case AppendIntent => AppendIntentStep(c, s, s')
    case TearData => TearDataStep(c, s, s')
    case WriteData => WriteDataStep(c, s, s')
    case FailData => FailDataStep(c, s, s')
    case CommitIntent => CommitIntentStep(c, s, s')
    case TearSave => TearSaveStep(c, s, s')
    case FinishSave => FinishSaveStep(c, s, s')
    case BeginDelete(start) => BeginDeleteStep(c, s, s', start)
    case BeginRecover => BeginRecoverStep(c, s, s')
    case ResetWal => ResetWalStep(c, s, s')
    case BeginClose => BeginCloseStep(c, s, s')
    case Crash => CrashStep(c, s, s')
  }

  /** The rollback of entry `e` would free block `i`. */
  predicate Frees(c: Config, e: WalEntry, i: nat) {
    !e.committed && c.StartOf(e.dataOffset) <= i < c.StartOf(e.dataOffset) + PhysicalBlocks(e.dataSize)
  }

  ghost predicate RolledBack(c: Config, entries: seq<WalEntry>, i: nat) {
    exists e :: e in entries && Frees(c, e, i)
  }

  /** A recovery now would free no block of the extent. */
  ghost predicate ClearOfLog(c: Config, s: State, start: nat, n: nat) {
    forall i: nat | start <= i < start + n :: !RolledBack(c, ReplayFrom(s.wal, c.layout.walBlocks, 0), i)
  }

  /** With a WAL that replays, a write may begin only if the extent it is about to be given is clear of the log.
    * As written, nothing is asked; WriteIsLostExactly (DiskMachineLimits) shows that no less will do. */
  ghost predicate Disciplined(c: Config, s: State, step: Step) {
    c.placement.Intended? && step.BeginWrite? && WellSized(c, s) && s.mem.Up? ==>
      forall start: nat | FirstFit(Bits(s.mem.bitmap, c.Blocks()), Size(step.block), start) ::
        ClearOfLog(c, s, start, Size(step.block))
  }

  /** A freshly formatted disk, not yet opened. */
  ghost predicate Init(c: Config, s: State) {
    && WellSized(c, s)
    && s.mem.Down? && s.live == map[] && s.wal == map[] && s.leaked == {}
    && forall i | 0 <= i < c.Blocks() :: !c.DurableBits(s.dev)[i]
  }

  // ---- the invariant ----

  predicate Apart(start1: nat, n1: nat, start2: nat, n2: nat) {
    start1 + n1 <= start2 || start2 + n2 <= start1
  }

  /** The device holds block `b` at extent `start`. */
  ghost predicate Stored(c: Config, dev: seq<byte>, start: nat, b: Block)
    requires |dev| == c.DeviceSize()
  {
    && b.Fits() && start + Size(b) <= c.Blocks()
    && dev[c.OffsetOf(start)..c.OffsetOf(start) + |Image(b)|] == Image(b)
  }

  ghost predicate ApartFromLive(live: map<nat, Block>, start: nat, n: nat) {
    forall k | k in live :: Apart(start, n, k, Size(live[k]))
  }

  ghost predicate LiveInv(c: Config, dev: seq<byte>, live: map<nat, Block>)
    requires |dev| == c.DeviceSize()
  {
    && (forall k | k in live :: Stored(c, dev, k, live[k]))
    && (forall k1, k2 | k1 in live && k2 in live && k1 != k2 :: Apart(k1, Size(live[k1]), k2, Size(live[k2])))
  }

  /** The write in progress owns its extent, and from DataWritten on the device holds its image. */
  ghost predicate WriteInv(c: Config, s: State)
    requires WellSized(c, s) && s.mem.Up? && s.mem.phase.Writing()
  {
    var w := s.mem.phase.w;
    && w.block.Fits() && w.start + Size(w.block) <= c.Blocks()
    && ApartFromLive(s.live, w.start, Size(w.block))
    && (s.mem.phase.DataWritten? || s.mem.phase.WriteSaving? ==> Stored(c, s.dev, w.start, w.block))
  }

  ghost predicate Covered(live: map<nat, Block>, i: nat) {
    exists k | k in live :: k <= i < k + Size(live[k])
  }

  /** Block `i` belongs to a live block, or was leaked. */
  ghost predicate Marked(s: State, i: nat) {
    Covered(s.live, i) || i in s.leaked
  }

  /** No operation in progress has to do with block `i`. */
  predicate Quiet(s: State, i: nat) {
    s.mem.Up? ==> !Pending(s.mem.phase, i) && !InFlight(s.mem.phase, i)
  }

  /** What the two bits of block `i` say, in memory and, unless a save is changing it, on the device. */
  ghost predicate BlockOk(c: Config, s: State, i: nat)
    requires WellSized(c, s) && i < c.Blocks()
  {
    && !(i in s.leaked && Covered(s.live, i))
    && (!Quiet(s, i) ==> !Marked(s, i))
    && (s.mem.Up? ==> (Bits(s.mem.bitmap, c.Blocks())[i] <==> Marked(s, i) || Pending(s.mem.phase, i)))
    && (!(s.mem.Up? && InFlight(s.mem.phase, i)) ==> (c.DurableBits(s.dev)[i] <==> Marked(s, i)))
  }

  ghost predicate BitsInv(c: Config, s: State)
    requires WellSized(c, s)
  {
    && (forall i | i in s.leaked :: i < c.Blocks())
    && (forall i: nat {:trigger BlockOk(c, s, i)} | i < c.Blocks() :: BlockOk(c, s, i))
  }

  /** The log entry of the write in progress. */
  predicate CurrentEntry(c: Config, s: State, off: nat) {
    && s.mem.Up? && (s.mem.phase.Logged? || s.mem.phase.DataWritten?)
    && s.mem.phase.seqNo > 0 && off == SlotOffset(c.placement, s.mem.phase.seqNo)
  }

  /** An entry recovery would roll back is that of the write in progress, or names only blocks not in use. */
  ghost predicate SlotOk(c: Config, s: State, off: nat)
    requires off in s.wal
  {
    Counts(s.wal[off]) && !s.wal[off].committed ==>
      if CurrentEntry(c, s, off) then s.wal[off] == Intent(c, s.mem.phase.w)
      else forall i: nat | Frees(c, EntryAt(off, s.wal[off]), i) :: !Marked(s, i) && Quiet(s, i)
  }

  ghost predicate SlotsOk(c: Config, s: State) {
    forall off {:trigger SlotOk(c, s, off)} | off in s.wal :: SlotOk(c, s, off)
  }

  /** The log file represents a list of entries, and the next sequence number follows the last of them. */
  ghost predicate LogShape(c: Config, s: State) {
    exists log :: Represents(s.wal, c.layout.walBlocks, log) && (s.mem.Up? ==> s.mem.nextSeq == |log| + 1)
  }

  ghost predicate LogInv(c: Config, s: State) {
    match c.placement
    case AsWritten => 0 !in s.wal
    case Intended => LogShape(c, s) && SlotsOk(c, s)
  }

  ghost predicate Inv(c: Config, s: State) {
    && c.Sound() && WellSized(c, s)
    && LiveInv(c, s.dev, s.live)
    && (s.mem.Up? && s.mem.phase.Writing() ==> WriteInv(c, s))
    && BitsInv(c, s)
    && LogInv(c, s)
  }

  // ---- frames ----

  lemma TornKeepsStored(c: Config, dev: seq<byte>, off: nat, buf: seq<byte>, dev': seq<byte>, start: nat, b: Block)
    requires |dev| == c.DeviceSize() && Torn(dev, off, buf, dev')
    requires Stored(c, dev, start, b)
    requires c.OffsetOf(start) + |Image(b)| <= off || off + |buf| <= c.OffsetOf(start)
    ensures Stored(c, dev', start, b)
  {
    TornElsewhere(dev, off, buf, dev', c.OffsetOf(start), c.OffsetOf(start) + |Image(b)|);
  }

  /** A write into an extent apart from all live ones, torn or not, keeps live blocks and the durable bitmap. */
  lemma DataWriteKeepsLive(c: Config, dev: seq<byte>, live: map<nat, Block>, w: Write, dev': seq<byte>)
    requires c.Sound() && |dev| == c.DeviceSize() && LiveInv(c, dev, live)
    requires w.block.Fits() && w.start + Size(w.block) <= c.Blocks()
    requires ApartFromLive(live, w.start, Size(w.block))
    requires Torn(dev, c.OffsetOf(w.start), Image(w.block), dev')
    ensures LiveInv(c, dev', live)
    ensures c.DurableBits(dev') == c.DurableBits(dev)
  {
    TornElsewhere(dev, c.OffsetOf(w.start), Image(w.block), dev', BLOCK, BLOCK + c.BitmapSize());
    forall k | k in live
      ensures Stored(c, dev', k, live[k])
    {
      TornKeepsStored(c, dev, c.OffsetOf(w.start), Image(w.block), dev', k, live[k]);
    }
  }

  /** A torn bitmap save leaves every stored block and mixes the old and the new bits. */
  lemma TornSave(c: Config, dev: seq<byte>, bm: seq<byte>, dev': seq<byte>, live: map<nat, Block>)
    requires c.Sound() && |dev| == c.DeviceSize() && |bm| == c.BitmapSize()
    requires Torn(dev, BLOCK, bm, dev') && LiveInv(c, dev, live)
    ensures LiveInv(c, dev', live)
  {
    forall k | k in live
      ensures Stored(c, dev', k, live[k])
    {
      TornKeepsStored(c, dev, BLOCK, bm, dev', k, live[k]);
    }
  }

  lemma TornBit(c: Config, dev: seq<byte>, bm: seq<byte>, dev': seq<byte>, i: nat)
    requires c.Sound() && |dev| == c.DeviceSize() && |bm| == c.BitmapSize()
    requires Torn(dev, BLOCK, bm, dev') && i < c.Blocks()
    ensures c.DurableBits(dev')[i] == c.DurableBits(dev)[i] || c.DurableBits(dev')[i] == Bits(bm, c.Blocks())[i]
  {
    var j := BLOCK + i / 8;
    assert dev'[j] == dev[j] || dev'[j] == bm[i / 8];
  }

  /** A completed save leaves every stored block and makes the bits durable. */
  lemma FullSave(c: Config, dev: seq<byte>, bm: seq<byte>, live: map<nat, Block>)
    requires c.Sound() && |dev| == c.DeviceSize() && |bm| == c.BitmapSize()
    requires LiveInv(c, dev, live)
    ensures LiveInv(c, Overwrite(dev, BLOCK, bm), live)
    ensures c.DurableBits(Overwrite(dev, BLOCK, bm)) == Bits(bm, c.Blocks())
  {
    OverwriteIsTorn(dev, BLOCK, bm);
    TornSave(c, dev, bm, Overwrite(dev, BLOCK, bm), live);
  }

  // ---- live blocks come and go ----

  lemma AddLive(c: Config, dev: seq<byte>, live: map<nat, Block>, w: Write)
    requires |dev| == c.DeviceSize() && LiveInv(c, dev, live)
    requires Stored(c, dev, w.start, w.block) && ApartFromLive(live, w.start, Size(w.block))
    ensures w.start !in live
    ensures LiveInv(c, dev, live[w.start := w.block])
  {
    assert w.start in live ==> Apart(w.start, Size(w.block), w.start, Size(live[w.start]));
  }

  lemma CoveredAdd(live: map<nat, Block>, w: Write, i: nat)
    requires w.start !in live
    ensures Covered(live[w.start := w.block], i) <==> Covered(live, i) || w.start <= i < w.start + Size(w.block)
  {
    var live' := live[w.start := w.block];
    if Covered(live, i) {
      var k :| k in live && k <= i < k + Size(live[k]);
      assert k in live';
    }
    if w.start <= i < w.start + Size(w.block) {
      assert w.start in live';
    }
  }

  lemma RemoveLive(c: Config, dev: seq<byte>, live: map<nat, Block>, start: nat)
    requires |dev| == c.DeviceSize() && LiveInv(c, dev, live) && start in live
    ensures LiveInv(c, dev, live - {start})
    ensures ApartFromLive(live - {start}, start, Size(live[start]))
  {
  }

  /** A block of a removed extent apart from all others is covered no more. */
  lemma CoveredRemove(live: map<nat, Block>, start: nat, i: nat)
    requires start in live && ApartFromLive(live - {start}, start, Size(live[start]))
    ensures Covered(live - {start}, i) <==> Covered(live, i) && !(start <= i < start + Size(live[start]))
  {
    var live' := live - {start};
    assert live == live'[start := live[start]];
    CoveredAdd(live', Write(live[start], start), i);
  }

  // ---- every step keeps the invariant ----

  lemma RolledBackFirst(c: Config, entries: seq<WalEntry>, i: nat)
    requires entries != []
    ensures RolledBack(c, entries, i) <==> Frees(c, entries[0], i) || RolledBack(c, entries[1..], i)
  {
    if RolledBack(c, entries, i) {
      var e :| e in entries && Frees(c, e, i);
      assert e == entries[0] || e in entries[1..];
    }
  }

  /** Recover clears exactly the extents of uncommitted entries. */
  lemma {:induction false} RollbackBit(c: Config, bits: seq<bool>, entries: seq<WalEntry>, i: nat)
    requires i < |bits|
    ensures Rollback(c, bits, entries)[i] <==> bits[i] && !RolledBack(c, entries, i)
    decreases |entries|
  {
    if entries != [] {
      var e := entries[0];
      var rest := if e.committed then bits else WithRange(bits, c.StartOf(e.dataOffset), PhysicalBlocks(e.dataSize), false);
      RollbackBit(c, rest, entries[1..], i);
      RolledBackFirst(c, entries, i);
    }
  }

  /** A step that changes neither bits nor owners, and moves no block out of an unfinished save. */
  lemma BitsStay(c: Config, s: State, s': State)
    requires WellSized(c, s) && WellSized(c, s') && BitsInv(c, s)
    requires s'.live == s.live && s'.leaked == s.leaked && s'.mem.Up? == s.mem.Up?
    requires c.DurableBits(s'.dev) == c.DurableBits(s.dev)
    requires s.mem.Up? ==>
               && Bits(s'.mem.bitmap, c.Blocks()) == Bits(s.mem.bitmap, c.Blocks())
               && (forall i :: Pending(s'.mem.phase, i) == Pending(s.mem.phase, i))
               && (forall i :: InFlight(s.mem.phase, i) ==> InFlight(s'.mem.phase, i))
    requires forall i :: Quiet(s, i) ==> Quiet(s', i)
    ensures BitsInv(c, s')
  {
    forall i: nat | i < c.Blocks()
      ensures BlockOk(c, s', i)
    {
      assert BlockOk(c, s, i);
    }
  }

  /** A step that leaves the log alone and puts no new block to use. */
  lemma SlotsStay(c: Config, s: State, s': State)
    requires SlotsOk(c, s) && s'.wal == s.wal
    requires s.mem.Up? && (s.mem.phase.Logged? || s.mem.phase.DataWritten?) ==> c.Sound() && s.mem.phase.w.start < c.Blocks()
    requires forall i :: !Marked(s, i) && Quiet(s, i) ==> !Marked(s', i) && Quiet(s', i)
    requires forall off | CurrentEntry(c, s, off) ::
               if CurrentEntry(c, s', off) then s'.mem.phase.w == s.mem.phase.w
               else forall i | Pending(s.mem.phase, i) :: !Marked(s', i) && Quiet(s', i)
    requires forall off | CurrentEntry(c, s', off) :: CurrentEntry(c, s, off)
    ensures SlotsOk(c, s')
  {
    forall off | off in s'.wal
      ensures SlotOk(c, s', off)
    {
      assert SlotOk(c, s, off);
      if CurrentEntry(c, s, off) {
        IntentFreesExtent(c, s.mem.phase.w, off);
      }
    }
  }

  /** The entry of a write names the blocks of its extent. */
  lemma IntentFreesExtent(c: Config, w: Write, off: nat)
    requires c.Sound() && w.start < c.Blocks()
    ensures forall i: nat :: Frees(c, EntryAt(off, Intent(c, w)), i) <==> w.start <= i < w.start + Size(w.block)
  {
    c.StartOfOffset(w.start);
  }

  /** The bits of live blocks are set in memory. */
  lemma LiveBits(c: Config, s: State, k: nat)
    requires Inv(c, s) && s.mem.Up? && k in s.live
    ensures k + Size(s.live[k]) <= c.Blocks() && Size(s.live[k]) > 0
    ensures forall i | k <= i < k + Size(s.live[k]) :: Bits(s.mem.bitmap, c.Blocks())[i]
  {
    assert Stored(c, s.dev, k, s.live[k]);
    forall i | k <= i < k + Size(s.live[k])
      ensures Bits(s.mem.bitmap, c.Blocks())[i]
    {
      assert BlockOk(c, s, i) && Covered(s.live, i);
    }
  }

  lemma ReopenKeepsShape(c: Config, s: State, s': State)
    requires LogShape(c, s) && ReopenStep(c, s, s')
    ensures LogShape(c, s')
  {
    var log :| Represents(s.wal, c.layout.walBlocks, log);
    MaxSeqOfLog(s.wal, c.layout.walBlocks, log, 0, 0);
    TrimIsRepresented(c.layout.walBlocks, s.wal, log);
    assert Represents(s'.wal, c.layout.walBlocks, TrimZeros(log));
  }

  lemma ReopenKeepsSlots(c: Config, s: State, s': State)
    requires SlotsOk(c, s) && ReopenStep(c, s, s')
    ensures SlotsOk(c, s')
  {
    SlotsStay(c, s, s');
  }

  lemma ReopenKeepsBits(c: Config, s: State, s': State)
    requires WellSized(c, s) && BitsInv(c, s) && ReopenStep(c, s, s') && WellSized(c, s')
    ensures BitsInv(c, s')
  {
    forall i: nat | i < c.Blocks()
      ensures BlockOk(c, s', i)
    {
      assert BlockOk(c, s, i);
    }
  }

  lemma ReopenKeeps(c: Config, s: State, s': State)
    requires Inv(c, s) && ReopenStep(c, s, s')
    ensures Inv(c, s')
  {
    ReopenKeepsBits(c, s, s');
    if c.placement.Intended? {
      ReopenKeepsShape(c, s, s');
      ReopenKeepsSlots(c, s, s');
    }
  }

  lemma CrashKeeps(c: Config, s: State, s': State)
    requires Inv(c, s) && CrashStep(c, s, s')
    ensures Inv(c, s')
  {
    forall i: nat | i < c.Blocks()
      ensures BlockOk(c, s', i)
    {
      assert BlockOk(c, s, i);
    }
    if c.placement.Intended? {
      CrashKeepsSlots(c, s, s');
    }
  }

  lemma CrashKeepsSlots(c: Config, s: State, s': State)
    requires Inv(c, s) && CrashStep(c, s, s') && c.placement.Intended?
    ensures LogInv(c, s')
  {
    var log: seq<WalHeader> :| Represents(s.wal, c.layout.walBlocks, log);
    assert Represents(s'.wal, c.layout.walBlocks, log);
    if s.mem.Up? {
      forall i: nat | Pending(s.mem.phase, i) && !InFlight(s.mem.phase, i)
        ensures !Marked(s', i)
      {
        assert BlockOk(c, s, i);
      }
    }
    SlotsStay(c, s, s');
  }

  lemma FreeRunIsApart(bits: seq<bool>, start: nat, n: nat, k: nat, m: nat)
    requires FreeRun(bits, start, n) && n > 0 && m > 0
    requires k + m <= |bits| && forall i | k <= i < k + m :: bits[i]
    ensures Apart(start, n, k, m)
  {
    var i := if start <= k then k else start;
    assert i < start + n ==> !bits[i];
  }

  /** The extent handed to a new write is apart from every live one, and no block of it is in use. */
  lemma BeginWriteIsApart(c: Config, s: State, s': State, block: Block)
    requires Inv(c, s) && BeginWriteStep(c, s, s', block)
    ensures var start := s'.mem.phase.w.start;
            && ApartFromLive(s.live, start, Size(block)) && start + Size(block) <= c.Blocks()
            && forall i: nat | start <= i < start + Size(block) :: !Marked(s, i)
  {
    var start := s'.mem.phase.w.start;
    forall k | k in s.live
      ensures Apart(start, Size(block), k, Size(s.live[k]))
    {
      LiveBits(c, s, k);
      FreeRunIsApart(Bits(s.mem.bitmap, c.Blocks()), start, Size(block), k, Size(s.live[k]));
    }
    forall i: nat | start <= i < start + Size(block)
      ensures !Marked(s, i)
    {
      assert BlockOk(c, s, i);
    }
  }

  lemma BeginWriteKeepsLog(c: Config, s: State, s': State, block: Block)
    requires Inv(c, s) && BeginWriteStep(c, s, s', block) && Disciplined(c, s, BeginWrite(block)) && c.placement.Intended?
    ensures LogInv(c, s')
  {
    var start := s'.mem.phase.w.start;
    var log: seq<WalHeader> :| Represents(s.wal, c.layout.walBlocks, log) && s.mem.nextSeq == |log| + 1;
    assert Represents(s'.wal, c.layout.walBlocks, log);
    forall off | off in s'.wal
      ensures SlotOk(c, s', off)
    {
      assert SlotOk(c, s, off);
      if Counts(s.wal[off]) {
        SlotIsClear(c, s, log, off, start, Size(block));
      }
    }
  }

  /** What is clear of the log is clear of every slot of it. */
  lemma SlotIsClear(c: Config, s: State, log: seq<WalHeader>, off: nat, start: nat, n: nat)
    requires Represents(s.wal, c.layout.walBlocks, log) && ClearOfLog(c, s, start, n)
    requires off in s.wal && Counts(s.wal[off])
    ensures forall i: nat | Frees(c, EntryAt(off, s.wal[off]), i) :: !(start <= i < start + n)
  {
    ReplaysSlot(s.wal, c.layout.walBlocks, log, off);
    forall i: nat | Frees(c, EntryAt(off, s.wal[off]), i)
      ensures RolledBack(c, ReplayFrom(s.wal, c.layout.walBlocks, 0), i)
    {
    }
  }

  lemma BeginWriteKeeps(c: Config, s: State, s': State, block: Block)
    requires Inv(c, s) && BeginWriteStep(c, s, s', block) && Disciplined(c, s, BeginWrite(block))
    ensures Inv(c, s')
  {
    BeginWriteIsApart(c, s, s', block);
    forall i: nat | i < c.Blocks()
      ensures BlockOk(c, s', i)
    {
      assert BlockOk(c, s, i);
    }
    if c.placement.Intended? {
      BeginWriteKeepsLog(c, s, s', block);
    }
  }

  lemma AppendIntentKeepsShape(c: Config, s: State, s': State)
    requires LogShape(c, s) && AppendIntentStep(c, s, s') && c.placement.Intended?
    ensures LogShape(c, s')
  {
    var log: seq<WalHeader> :| Represents(s.wal, c.layout.walBlocks, log) && s.mem.nextSeq == |log| + 1;
    var log' := SomeAppendIsRepresented(c.layout.walBlocks, WalState(s.wal, s.mem.nextSeq), log, Intent(c, s.mem.phase.w));
  }

  lemma AppendIntentKeepsSlots(c: Config, s: State, s': State)
    requires SlotsOk(c, s) && AppendIntentStep(c, s, s') && c.placement.Intended?
    ensures SlotsOk(c, s')
  {
    forall off | off in s'.wal
      ensures SlotOk(c, s', off)
    {
      assert off in s.wal ==> SlotOk(c, s, off);
    }
  }

  /** With a log that replays and has room, logging a write adds to the replay its block, place, size and checksum, not committed. */
  lemma IntentIsReplayed(c: Config, s: State, s': State)
    requires LogShape(c, s) && AppendIntentStep(c, s, s') && c.placement.Intended?
    ensures var b, n := s.mem.phase.w.block, s.mem.nextSeq;
            ReplayFrom(s'.wal, c.layout.walBlocks, 0) ==
            ReplayFrom(s.wal, c.layout.walBlocks, 0)
            + if b.id > 0 && n <= c.layout.walBlocks
              then [WalEntry(n, b.id, c.OffsetOf(s.mem.phase.w.start), |b.data|, b.crc, false)] else []
  {
    var log: seq<WalHeader> :| Represents(s.wal, c.layout.walBlocks, log) && s.mem.nextSeq == |log| + 1;
    var b := s.mem.phase.w.block;
    ReplayOfAppended(c.layout.walBlocks, WalState(s.wal, s.mem.nextSeq), log, b.id, c.OffsetOf(s.mem.phase.w.start), |b.data|, b.crc);
  }

  /** Committing it marks the entry of its number in the replay, and no other. */
  lemma CommitIsReplayed(c: Config, s: State, s': State)
    requires LogShape(c, s) && CommitIntentStep(c, s, s') && c.placement.Intended?
    ensures ReplayFrom(s'.wal, c.layout.walBlocks, 0) ==
            WithCommitted(ReplayFrom(s.wal, c.layout.walBlocks, 0), s.mem.phase.seqNo)
  {
    var log: seq<WalHeader> :| Represents(s.wal, c.layout.walBlocks, log) && s.mem.nextSeq == |log| + 1;
    ReplayOfCommitted(c.layout.walBlocks, s.wal, log, s.mem.phase.seqNo);
  }

  lemma AppendIntentKeeps(c: Config, s: State, s': State)
    requires Inv(c, s) && AppendIntentStep(c, s, s')
    ensures Inv(c, s')
  {
    BitsStay(c, s, s');
    if c.placement.Intended? {
      AppendIntentKeepsShape(c, s, s');
      AppendIntentKeepsSlots(c, s, s');
    }
  }

  /** A step that leaves log and memory alone, phase excepted, keeps the shape of the log. */
  lemma LogStays(c: Config, s: State, s': State)
    requires LogInv(c, s) && s'.wal == s.wal
    requires s'.mem.Up? ==> s.mem.Up? && s'.mem.nextSeq == s.mem.nextSeq
    requires c.placement.Intended? ==> SlotsOk(c, s')
    ensures LogInv(c, s')
  {
    if c.placement.Intended? {
      var log: seq<WalHeader> :| Represents(s.wal, c.layout.walBlocks, log) && (s.mem.Up? ==> s.mem.nextSeq == |log| + 1);
      assert Represents(s'.wal, c.layout.walBlocks, log);
    }
  }

  lemma TearDataKeeps(c: Config, s: State, s': State)
    requires Inv(c, s) && TearDataStep(c, s, s')
    ensures Inv(c, s')
  {
    DataWriteKeepsLive(c, s.dev, s.live, s.mem.phase.w, s'.dev);
    BitsStay(c, s, s');
    if c.placement.Intended? {
      SlotsStay(c, s, s');
    }
    LogStays(c, s, s');
  }

  lemma WriteDataKeeps(c: Config, s: State, s': State)
    requires Inv(c, s) && WriteDataStep(c, s, s')
    ensures Inv(c, s')
  {
    var w := s.mem.phase.w;
    OverwriteIsTorn(s.dev, c.OffsetOf(w.start), Image(w.block));
    DataWriteKeepsLive(c, s.dev, s.live, w, s'.dev);
    BitsStay(c, s, s');
    if c.placement.Intended? {
      SlotsStay(c, s, s');
    }
    LogStays(c, s, s');
  }

  lemma FailDataKeepsBits(c: Config, s: State, s': State)
    requires WellSized(c, s) && BitsInv(c, s) && FailDataStep(c, s, s')
    ensures BitsInv(c, s')
  {
    forall i: nat | i < c.Blocks()
      ensures BlockOk(c, s', i)
    {
      assert BlockOk(c, s, i);
    }
  }

  /** The entry of the failed write stays, but its blocks are free again. */
  lemma FailDataKeepsSlots(c: Config, s: State, s': State)
    requires c.Sound() && s.mem.Up? && s.mem.phase.Logged? && s.mem.phase.w.block.Fits() && WellSized(c, s) && BitsInv(c, s) && SlotsOk(c, s) && FailDataStep(c, s, s')
    requires s.mem.phase.w.start + Size(s.mem.phase.w.block) <= c.Blocks()
    ensures SlotsOk(c, s')
  {
    forall i: nat | Pending(s.mem.phase, i)
      ensures !Marked(s', i)
    {
      assert BlockOk(c, s, i);
    }
    SlotsStay(c, s, s');
  }

  lemma FailDataKeeps(c: Config, s: State, s': State)
    requires Inv(c, s) && FailDataStep(c, s, s')
    ensures Inv(c, s')
  {
    FailDataKeepsBits(c, s, s');
    if c.placement.Intended? {
      FailDataKeepsSlots(c, s, s');
    }
    LogStays(c, s, s');
  }

  lemma CommitIntentKeepsShape(c: Config, s: State, s': State)
    requires LogShape(c, s) && CommitIntentStep(c, s, s') && c.placement.Intended?
    ensures LogShape(c, s')
    ensures forall off | off in s.wal :: InLog(off, c.layout.walBlocks)
  {
    var log: seq<WalHeader> :| Represents(s.wal, c.layout.walBlocks, log) && s.mem.nextSeq == |log| + 1;
    var log' := SomeCommitIsRepresented(c.layout.walBlocks, s.wal, log, s.mem.phase.seqNo);
    SlotsInLog(c.layout.walBlocks, s.wal, log);
  }

  lemma CommitIntentKeepsSlots(c: Config, s: State, s': State)
    requires SlotsOk(c, s) && CommitIntentStep(c, s, s')
    requires forall off | off in s.wal :: InLog(off, c.layout.walBlocks)
    ensures SlotsOk(c, s')
  {
    forall off | off in s'.wal
      ensures SlotOk(c, s', off)
    {
      assert SlotOk(c, s, off);
    }
  }

  lemma CommitIntentKeeps(c: Config, s: State, s': State)
    requires Inv(c, s) && CommitIntentStep(c, s, s')
    ensures Inv(c, s')
  {
    BitsStay(c, s, s');
    if c.placement.Intended? {
      CommitIntentKeepsShape(c, s, s');
      CommitIntentKeepsSlots(c, s, s');
    }
  }

  lemma TearSaveKeepsBits(c: Config, s: State, s': State)
    requires c.Sound() && WellSized(c, s) && BitsInv(c, s) && TearSaveStep(c, s, s')
    ensures BitsInv(c, s')
  {
    forall i: nat | i < c.Blocks()
      ensures BlockOk(c, s', i)
    {
      assert BlockOk(c, s, i);
      TornBit(c, s.dev, s.mem.bitmap, s'.dev, i);
    }
  }

  lemma TearSaveKeeps(c: Config, s: State, s': State)
    requires Inv(c, s) && TearSaveStep(c, s, s')
    ensures Inv(c, s')
  {
    TornSave(c, s.dev, s.mem.bitmap, s'.dev, s.live);
    if s.mem.phase.WriteSaving? {
      TornKeepsStored(c, s.dev, BLOCK, s.mem.bitmap, s'.dev, s.mem.phase.w.start, s.mem.phase.w.block);
    }
    TearSaveKeepsBits(c, s, s');
    if c.placement.Intended? {
      SlotsStay(c, s, s');
    }
    LogStays(c, s, s');
  }

  lemma PendingIsNotLive(c: Config, s: State, w: Write)
    requires Inv(c, s) && s.mem.Up? && s.mem.phase == WriteSaving(w)
    ensures w.start !in s.live
  {
    AddLive(c, s.dev, s.live, w);
  }

  lemma AckKeepsBits(c: Config, s: State, s': State)
    requires WellSized(c, s) && BitsInv(c, s) && FinishSaveStep(c, s, s') && s.mem.phase.WriteSaving? && WellSized(c, s')
    requires s.mem.phase.w.start !in s.live
    requires c.DurableBits(s'.dev) == Bits(s.mem.bitmap, c.Blocks())
    ensures BitsInv(c, s')
  {
    forall i: nat | i < c.Blocks()
      ensures BlockOk(c, s', i)
    {
      assert BlockOk(c, s, i);
      CoveredAdd(s.live, s.mem.phase.w, i);
    }
  }

  lemma AckKeepsSlots(c: Config, s: State, s': State)
    requires SlotsOk(c, s) && FinishSaveStep(c, s, s') && s.mem.phase.WriteSaving?
    requires s.mem.phase.w.start !in s.live
    ensures SlotsOk(c, s')
  {
    forall i: nat | !Marked(s, i) && Quiet(s, i)
      ensures !Marked(s', i)
    {
      CoveredAdd(s.live, s.mem.phase.w, i);
    }
    SlotsStay(c, s, s');
  }

  lemma AckKeepsLive(c: Config, s: State, s': State)
    requires Inv(c, s) && FinishSaveStep(c, s, s') && s.mem.phase.WriteSaving?
    ensures WellSized(c, s') && LiveInv(c, s'.dev, s'.live) && s.mem.phase.w.start !in s.live
    ensures c.DurableBits(s'.dev) == Bits(s.mem.bitmap, c.Blocks())
  {
    AddLive(c, s.dev, s.live, s.mem.phase.w);
    FullSave(c, s.dev, s.mem.bitmap, s'.live);
  }

  /** Acknowledging a write turns its extent from pending into live. */
  lemma AckKeeps(c: Config, s: State, s': State)
    requires Inv(c, s) && FinishSaveStep(c, s, s') && s.mem.phase.WriteSaving?
    ensures Inv(c, s')
  {
    AckKeepsLive(c, s, s');
    AckKeepsBits(c, s, s');
    if c.placement.Intended? {
      AckKeepsSlots(c, s, s');
    }
    LogStays(c, s, s');
  }

  lemma OtherSaveKeepsBits(c: Config, s: State, s': State)
    requires WellSized(c, s) && BitsInv(c, s) && FinishSaveStep(c, s, s') && !s.mem.phase.WriteSaving? && WellSized(c, s')
    requires c.DurableBits(s'.dev) == Bits(s.mem.bitmap, c.Blocks())
    ensures BitsInv(c, s')
  {
    forall i: nat | i < c.Blocks()
      ensures BlockOk(c, s', i)
    {
      assert BlockOk(c, s, i);
    }
  }

  lemma OtherSaveKeepsLive(c: Config, s: State, s': State)
    requires c.Sound() && WellSized(c, s) && LiveInv(c, s.dev, s.live)
    requires FinishSaveStep(c, s, s') && !s.mem.phase.WriteSaving?
    ensures WellSized(c, s') && LiveInv(c, s'.dev, s'.live)
    ensures c.DurableBits(s'.dev) == Bits(s.mem.bitmap, c.Blocks())
  {
    FullSave(c, s.dev, s.mem.bitmap, s.live);
  }

  lemma OtherSaveKeepsSlots(c: Config, s: State, s': State)
    requires SlotsOk(c, s) && FinishSaveStep(c, s, s') && !s.mem.phase.WriteSaving?
    ensures SlotsOk(c, s')
  {
    SlotsStay(c, s, s');
  }

  lemma OtherSaveKeeps(c: Config, s: State, s': State)
    requires Inv(c, s) && FinishSaveStep(c, s, s') && !s.mem.phase.WriteSaving?
    ensures Inv(c, s')
  {
    OtherSaveKeepsLive(c, s, s');
    OtherSaveKeepsBits(c, s, s');
    if c.placement.Intended? {
      OtherSaveKeepsSlots(c, s, s');
    }
    LogStays(c, s, s');
  }

  lemma FinishSaveKeeps(c: Config, s: State, s': State)
    requires Inv(c, s) && FinishSaveStep(c, s, s')
    ensures Inv(c, s')
  {
    if s.mem.phase.WriteSaving? {
      AckKeeps(c, s, s');
    } else {
      OtherSaveKeeps(c, s, s');
    }
  }

  lemma BeginDeleteKeeps(c: Config, s: State, s': State, start: nat)
    requires Inv(c, s) && BeginDeleteStep(c, s, s', start)
    ensures Inv(c, s')
  {
    RemoveLive(c, s.dev, s.live, start);
    forall i: nat
      ensures Covered(s'.live, i) <==> Covered(s.live, i) && !(start <= i < start + Size(s.live[start]))
    {
      CoveredRemove(s.live, start, i);
    }
    BeginDeleteKeepsBits(c, s, s', start);
    if c.placement.Intended? {
      BeginDeleteKeepsSlots(c, s, s', start);
    }
    LogStays(c, s, s');
  }

  lemma BeginDeleteKeepsBits(c: Config, s: State, s': State, start: nat)
    requires WellSized(c, s) && BitsInv(c, s) && BeginDeleteStep(c, s, s', start)
    requires forall i: nat :: Covered(s'.live, i) <==> Covered(s.live, i) && !(start <= i < start + Size(s.live[start]))
    ensures BitsInv(c, s')
  {
    forall i: nat | i < c.Blocks()
      ensures BlockOk(c, s', i)
    {
      assert BlockOk(c, s, i);
      assert start <= i < start + Size(s.live[start]) ==> Covered(s.live, i);
    }
  }

  lemma BeginDeleteKeepsSlots(c: Config, s: State, s': State, start: nat)
    requires SlotsOk(c, s) && BeginDeleteStep(c, s, s', start)
    requires forall i: nat :: Covered(s'.live, i) <==> Covered(s.live, i) && !(start <= i < start + Size(s.live[start]))
    ensures SlotsOk(c, s')
  {
    forall i: nat | !Marked(s, i)
      ensures !(start <= i < start + Size(s.live[start]))
    {
      assert start <= i < start + Size(s.live[start]) ==> Covered(s.live, i);
    }
    SlotsStay(c, s, s');
  }

  /** Recovery frees nothing: the entries it rolls back name only blocks that are free already. */
  lemma RecoverFreesNothing(c: Config, s: State, s': State)
    requires Inv(c, s) && BeginRecoverStep(c, s, s')
    ensures Bits(s'.mem.bitmap, c.Blocks()) == Bits(s.mem.bitmap, c.Blocks())
  {
    var entries := ReplayFrom(s.wal, c.layout.walBlocks, 0);
    var bits := Bits(s.mem.bitmap, c.Blocks());
    forall i: nat | i < c.Blocks()
      ensures Rollback(c, bits, entries)[i] == bits[i]
    {
      RollbackBit(c, bits, entries, i);
      if RolledBack(c, entries, i) {
        var e :| e in entries && Frees(c, e, i);
        var off := ReplayedFromFile(s.wal, c.layout.walBlocks, 0, e);
        assert SlotOk(c, s, off) && BlockOk(c, s, i);
      }
    }
  }

  lemma BeginRecoverKeeps(c: Config, s: State, s': State)
    requires Inv(c, s) && BeginRecoverStep(c, s, s')
    ensures Inv(c, s')
  {
    RecoverFreesNothing(c, s, s');
    BitsStay(c, s, s');
    if c.placement.Intended? {
      SlotsStay(c, s, s');
    }
    LogStays(c, s, s');
  }

  lemma ResetWalKeeps(c: Config, s: State, s': State)
    requires Inv(c, s) && ResetWalStep(c, s, s')
    ensures Inv(c, s')
  {
    BitsStay(c, s, s');
    assert Represents(s'.wal, c.layout.walBlocks, []);
  }

  lemma BeginCloseKeeps(c: Config, s: State, s': State)
    requires Inv(c, s) && BeginCloseStep(c, s, s')
    ensures Inv(c, s')
  {
    BitsStay(c, s, s');
    if c.placement.Intended? {
      SlotsStay(c, s, s');
    }
    LogStays(c, s, s');
  }

  lemma StepKeepsInv(c: Config, s: State, s': State, step: Step)
    requires Inv(c, s) && Disciplined(c, s, step) && NextStep(c, s, s', step)
    ensures Inv(c, s')
  {
    match step {
      case Reopen => ReopenKeeps(c, s, s');
      case BeginWrite(block) => BeginWriteKeeps(c, s, s', block);
      case AppendIntent => AppendIntentKeeps(c, s, s');
      case TearData => TearDataKeeps(c, s, s');
      case WriteData => WriteDataKeeps(c, s, s');
      case FailData => FailDataKeeps(c, s, s');
      case CommitIntent => CommitIntentKeeps(c, s, s');
      case TearSave => TearSaveKeeps(c, s, s');
      case FinishSave => FinishSaveKeeps(c, s, s');
      case BeginDelete(start) => BeginDeleteKeeps(c, s, s', start);
      case BeginRecover => BeginRecoverKeeps(c, s, s');
      case ResetWal => ResetWalKeeps(c, s, s');
      case BeginClose => BeginCloseKeeps(c, s, s');
      case Crash => CrashKeeps(c, s, s');
    }
  }

  // ---- whole runs ----

  ghost predicate Steps(c: Config, run: seq<State>, steps: seq<Step>) {
    && |run| == |steps| + 1
    && forall i | 0 <= i < |steps| :: Disciplined(c, run[i], steps[i]) && NextStep(c, run[i], run[i + 1], steps[i])
  }

  ghost predicate IsRun(c: Config, run: seq<State>, steps: seq<Step>) {
    c.Sound() && Steps(c, run, steps) && Init(c, run[0])
  }

  lemma {:induction false} StepsKeepInv(c: Config, run: seq<State>, steps: seq<Step>, i: nat)
    requires Steps(c, run, steps) && Inv(c, run[0]) && i <= |steps|
    ensures Inv(c, run[i])
  {
    if i > 0 {
      StepsKeepInv(c, run, steps, i - 1);
      StepKeepsInv(c, run[i - 1], run[i], steps[i - 1]);
    }
  }

  lemma InvHolds(c: Config, run: seq<State>, steps: seq<Step>, i: nat)
    requires IsRun(c, run, steps) && i <= |steps|
    ensures Inv(c, run[i])
  {
    StepsKeepInv(c, run, steps, i);
  }

  /** A live block leaves `live` only by a request to delete it. */
  lemma LiveStays(c: Config, s: State, s': State, step: Step, k: nat)
    requires NextStep(c, s, s', step)
    requires s.mem.Up? && s.mem.phase.WriteSaving? ==> s.mem.phase.w.start !in s.live
    requires k in s.live && step != BeginDelete(k)
    ensures k in s'.live && s'.live[k] == s.live[k]
  {
  }

  /** A live block stays live, and stored, from any state in order. */
  lemma {:induction false} StillLive(c: Config, run: seq<State>, steps: seq<Step>, i: nat, j: nat, k: nat)
    requires Steps(c, run, steps) && Inv(c, run[0]) && i <= j <= |steps|
    requires k in run[i].live
    requires forall t | i <= t < j :: steps[t] != BeginDelete(k)
    ensures k in run[j].live && run[j].live[k] == run[i].live[k]
    decreases j - i
  {
    if i < j {
      StepsKeepInv(c, run, steps, i);
      if run[i].mem.Up? && run[i].mem.phase.WriteSaving? {
        PendingIsNotLive(c, run[i], run[i].mem.phase.w);
      }
      LiveStays(c, run[i], run[i + 1], steps[i], k);
      StillLive(c, run, steps, i + 1, j, k);
    }
  }

  /** ReadBlock returns a live block's id, checksum and bytes. */
  lemma LiveReadsBack(c: Config, s: State, k: nat)
    requires Inv(c, s) && k in s.live
    ensures ReadFrom(s.dev, c.OffsetOf(k)) == ReadOk(s.live[k].id, s.live[k].crc, s.live[k].data)
    ensures c.StartOf(c.OffsetOf(k)) == k
  {
    assert Stored(c, s.dev, k, s.live[k]);
    ReadsBackImage(s.dev, c.OffsetOf(k), s.live[k]);
    c.StartOfOffset(k);
  }

  /** Crash safety: once acknowledged, and until its delete is requested, a block reads back its id, checksum and
    * bytes after any steps whatever, crashes, torn writes, reopenings and recoveries included. */
  lemma CrashSafety(c: Config, run: seq<State>, steps: seq<Step>, i: nat, j: nat, k: nat)
    requires IsRun(c, run, steps) && i <= j <= |steps|
    requires k in run[i].live
    requires forall t | i <= t < j :: steps[t] != BeginDelete(k)
    ensures k in run[j].live && run[j].live[k] == run[i].live[k]
    ensures var b := run[i].live[k]; ReadFrom(run[j].dev, c.OffsetOf(k)) == ReadOk(b.id, b.crc, b.data)
  {
    InvHolds(c, run, steps, 0);
    StillLive(c, run, steps, i, j, k);
    InvHolds(c, run, steps, j);
    LiveReadsBack(c, run[j], k);
  }

  /** No write is ever given a physical block of a live block. */
  lemma NeverReallocated(c: Config, run: seq<State>, steps: seq<Step>, i: nat, k: nat)
    requires IsRun(c, run, steps) && i < |steps| && steps[i].BeginWrite? && k in run[i].live
    ensures Apart(run[i + 1].mem.phase.w.start, Size(steps[i].block), k, Size(run[i].live[k]))
  {
    InvHolds(c, run, steps, i);
    BeginWriteIsApart(c, run[i], run[i + 1], steps[i].block);
  }

  /** In every idle state the set bits are exactly the extents of live blocks and, apart from them, the leaked blocks. */
  lemma BitsAreLiveExtents(c: Config, run: seq<State>, steps: seq<Step>, i: nat, b: nat)
    requires IsRun(c, run, steps) && i <= |steps| && b < c.Blocks()
    requires run[i].mem.Up? && run[i].mem.phase.Idle?
    ensures WellSized(c, run[i])
    ensures Bits(run[i].mem.bitmap, c.Blocks())[b] <==> Covered(run[i].live, b) || b in run[i].leaked
    ensures !(Covered(run[i].live, b) && b in run[i].leaked)
  {
    InvHolds(c, run, steps, i);
    assert BlockOk(c, run[i], b);
  }

  // ---- what any run without deletes keeps ----

  ghost predicate NoDelete(steps: seq<Step>) {
    forall t | 0 <= t < |steps| :: !steps[t].BeginDelete?
  }

  /** Some disciplined steps without a delete lead from `s` to `s'`. */
  ghost predicate Survives(c: Config, s: State, s': State) {
    exists run: seq<State>, steps: seq<Step> :: Steps(c, run, steps) && NoDelete(steps) && run[0] == s && run[|steps|] == s'
  }

  lemma SurvivesNothing(c: Config, s: State)
    ensures Survives(c, s, s)
  {
    assert Steps(c, [s], []) && NoDelete([]);
  }

  lemma SurvivesStep(c: Config, s: State, s': State, s'': State, step: Step)
    requires Survives(c, s, s') && Disciplined(c, s', step) && NextStep(c, s', s'', step) && !step.BeginDelete?
    ensures Survives(c, s, s'')
  {
    var run: seq<State>, steps: seq<Step> :| Steps(c, run, steps) && NoDelete(steps) && run[0] == s && run[|steps|] == s';
    var run2, steps2 := run + [s''], steps + [step];
    forall i | 0 <= i < |steps2|
      ensures Disciplined(c, run2[i], steps2[i]) && NextStep(c, run2[i], run2[i + 1], steps2[i]) && !steps2[i].BeginDelete?
    {
      if i < |steps| {
        assert run2[i] == run[i] && run2[i + 1] == run[i + 1] && steps2[i] == steps[i];
      } else {
        assert run2[i] == s' && run2[i + 1] == s'' && steps2[i] == step;
      }
    }
    assert Steps(c, run2, steps2) && NoDelete(steps2);
  }

  lemma SurvivesBoth(c: Config, s: State, s': State, s'': State)
    requires Survives(c, s, s') && Survives(c, s', s'')
    ensures Survives(c, s, s'')
  {
    var run1: seq<State>, steps1: seq<Step> :| Steps(c, run1, steps1) && NoDelete(steps1) && run1[0] == s && run1[|steps1|] == s';
    var run2: seq<State>, steps2: seq<Step> :| Steps(c, run2, steps2) && NoDelete(steps2) && run2[0] == s' && run2[|steps2|] == s'';
    JoinSteps(c, run1, steps1, run2, steps2);
    assert NoDelete(steps1 + steps2);
    assert (run1 + run2[1..])[0] == run1[0];
  }

  lemma JoinSteps(c: Config, run1: seq<State>, steps1: seq<Step>, run2: seq<State>, steps2: seq<Step>)
    requires Steps(c, run1, steps1) && Steps(c, run2, steps2) && run2[0] == run1[|steps1|]
    ensures Steps(c, run1 + run2[1..], steps1 + steps2)
    ensures (run1 + run2[1..])[|steps1| + |steps2|] == run2[|steps2|]
  {
    var run, steps := run1 + run2[1..], steps1 + steps2;
    forall i | 0 <= i < |steps|
      ensures Disciplined(c, run[i], steps[i]) && NextStep(c, run[i], run[i + 1], steps[i])
    {
      if i >= |steps1| {
        var j := i - |steps1|;
        assert run[i] == run2[j] && run[i + 1] == run2[j + 1] && steps[i] == steps2[j];
      } else {
        assert run[i] == run1[i] && run[i + 1] == run1[i + 1] && steps[i] == steps1[i];
      }
    }
  }

  /** Whatever was live still is, and what was leaked too. */
  lemma SurvivesKeeps(c: Config, s: State, s': State)
    requires Inv(c, s) && Survives(c, s, s')
    ensures Inv(c, s') && s.leaked <= s'.leaked
    ensures forall k | k in s.live :: k in s'.live && s'.live[k] == s.live[k]
  {
    var run: seq<State>, steps: seq<Step> :| Steps(c, run, steps) && NoDelete(steps) && run[0] == s && run[|steps|] == s';
    StepsKeepInv(c, run, steps, |steps|);
    LeakedGrowsAlong(c, run, steps, |steps|);
    forall k | k in s.live
      ensures k in s'.live && s'.live[k] == s.live[k]
    {
      StillLive(c, run, steps, 0, |steps|, k);
    }
  }

  lemma {:induction false} LeakedGrowsAlong(c: Config, run: seq<State>, steps: seq<Step>, i: nat)
    requires Steps(c, run, steps) && i <= |steps|
    ensures run[0].leaked <= run[i].leaked
  {
    if i > 0 {
      LeakedGrowsAlong(c, run, steps, i - 1);
      LeakedGrows(c, run[i - 1], run[i], steps[i - 1]);
    }
  }

  // ---- leaks ----

  /** A crash now leaks nothing: it falls outside the save of a write or delete, or leaves no bit of its extent set. */
  ghost predicate CleanCrash(c: Config, s: State) {
    WellSized(c, s) && s.mem.Up? ==> forall i: nat | i < c.Blocks() && InFlight(s.mem.phase, i) :: !c.DurableBits(s.dev)[i]
  }

  /** A crash leaks something new exactly when it is not clean. */
  lemma CrashLeaksExactly(c: Config, s: State, s': State)
    requires Inv(c, s) && CrashStep(c, s, s')
    ensures s'.leaked == s.leaked <==> CleanCrash(c, s)
  {
    if !CleanCrash(c, s) {
      var i: nat :| i < c.Blocks() && InFlight(s.mem.phase, i) && c.DurableBits(s.dev)[i];
      assert BlockOk(c, s, i) && i in Left(c, s);
    } else {
      assert Left(c, s) == {};
    }
  }

  lemma LeakedGrows(c: Config, s: State, s': State, step: Step)
    requires NextStep(c, s, s', step)
    ensures s.leaked <= s'.leaked && (!step.Crash? ==> s'.leaked == s.leaked)
  {
  }

  lemma {:induction false} LeakedExactly(c: Config, run: seq<State>, steps: seq<Step>, i: nat)
    requires IsRun(c, run, steps) && i <= |steps|
    ensures run[i].leaked == {} <==> forall t | 0 <= t < i && steps[t].Crash? :: CleanCrash(c, run[t])
  {
    if i > 0 {
      LeakedExactly(c, run, steps, i - 1);
      LeakedGrows(c, run[i - 1], run[i], steps[i - 1]);
      if steps[i - 1].Crash? {
        InvHolds(c, run, steps, i - 1);
        CrashLeaksExactly(c, run[i - 1], run[i]);
      }
    }
  }

  /** The bitmap says exactly which blocks live data occupies if and only if every crash so far was clean. */
  lemma BitsExactExactly(c: Config, run: seq<State>, steps: seq<Step>, i: nat)
    requires IsRun(c, run, steps) && i <= |steps|
    requires run[i].mem.Up? && run[i].mem.phase.Idle?
    ensures WellSized(c, run[i])
    ensures (forall b: nat | b < c.Blocks() :: Bits(run[i].mem.bitmap, c.Blocks())[b] <==> Covered(run[i].live, b))
       <==> (forall t | 0 <= t < i && steps[t].Crash? :: CleanCrash(c, run[t]))
  {
    InvHolds(c, run, steps, i);
    LeakedExactly(c, run, steps, i);
    forall b: nat | b < c.Blocks()
      ensures (Bits(run[i].mem.bitmap, c.Blocks())[b] <==> Covered(run[i].live, b)) <==> b !in run[i].leaked
    {
      BitsAreLiveExtents(c, run, steps, i, b);
    }
    if b :| b in run[i].leaked {
      assert Bits(run[i].mem.bitmap, c.Blocks())[b] != Covered(run[i].live, b);
    }
  }

  /** A leaked block is lost for good: no later delete, recovery or reopening clears its bit. */
  lemma {:induction false} LeakedForever(c: Config, run: seq<State>, steps: seq<Step>, i: nat, j: nat, b: nat)
    requires IsRun(c, run, steps) && i <= j <= |steps| && b in run[i].leaked
    ensures WellSized(c, run[j]) && b < c.Blocks() && b in run[j].leaked
    ensures if run[j].mem.Up? then Bits(run[j].mem.bitmap, c.Blocks())[b] else c.DurableBits(run[j].dev)[b]
    decreases j - i
  {
    if i < j {
      LeakedGrows(c, run[i], run[i + 1], steps[i]);
      LeakedForever(c, run, steps, i + 1, j, b);
    } else {
      InvHolds(c, run, steps, i);
      assert BlockOk(c, run[i], b);
    }
  }

  // ---- which runs are disciplined ----

  lemma CommittedLogIsDisciplined(c: Config, s: State, step: Step)
    requires forall e | e in ReplayFrom(s.wal, c.layout.walBlocks, 0) :: e.committed
    ensures Disciplined(c, s, step)
  {
  }

  /** Every entry not committed is that of the write in progress. */
  predicate CleanLog(c: Config, s: State) {
    forall off | off in s.wal :: InLog(off, c.layout.walBlocks) && (s.wal[off].committed || CurrentEntry(c, s, off))
  }

  lemma CleanLogIsDisciplined(c: Config, s: State, step: Step)
    requires CleanLog(c, s) && s.mem.Up? && s.mem.phase.Idle?
    ensures Disciplined(c, s, step)
  {
    forall e | e in ReplayFrom(s.wal, c.layout.walBlocks, 0)
      ensures e.committed
    {
      var off := ReplayedFromFile(s.wal, c.layout.walBlocks, 0, e);
    }
    CommittedLogIsDisciplined(c, s, step);
  }

  lemma StepKeepsLogClean(c: Config, s: State, s': State, step: Step)
    requires NextStep(c, s, s', step) && !step.Crash? && !step.FailData? && CleanLog(c, s)
    ensures CleanLog(c, s')
  {
  }

  lemma {:induction false} LogStaysClean(c: Config, run: seq<State>, steps: seq<Step>, i: nat)
    requires |run| == |steps| + 1 && i <= |steps| && run[0].wal == map[]
    requires forall t | 0 <= t < |steps| :: NextStep(c, run[t], run[t + 1], steps[t])
    requires forall t | 0 <= t < i :: !steps[t].Crash? && !steps[t].FailData?
    ensures CleanLog(c, run[i])
  {
    if i > 0 {
      LogStaysClean(c, run, steps, i - 1);
      StepKeepsLogClean(c, run[i - 1], run[i], steps[i - 1]);
    }
  }

  /** From an empty log, as formatting or a recovery leaves it, every write is disciplined until the next crash or failed
    * data write. */
  lemma UndisturbedIsDisciplined(c: Config, run: seq<State>, steps: seq<Step>, i: nat)
    requires |run| == |steps| + 1 && i < |steps| && run[0].wal == map[]
    requires forall t | 0 <= t < |steps| :: NextStep(c, run[t], run[t + 1], steps[t])
    requires forall t | 0 <= t < i :: !steps[t].Crash? && !steps[t].FailData?
    ensures Disciplined(c, run[i], steps[i])
  {
    LogStaysClean(c, run, steps, i);
    if steps[i].BeginWrite? {
      assert NextStep(c, run[i], run[i + 1], steps[i]);
      CleanLogIsDisciplined(c, run[i], steps[i]);
    }
  }

  /** Every opening is followed by a recovery, as in DataNode::Start (src/data/data_node.cpp:53-66), and no data write fails. */
  predicate RecoversFirst(steps: seq<Step>) {
    forall t | 0 <= t < |steps| ::
      && !steps[t].FailData?
      && (t > 0 && steps[t - 1].Reopen? ==> steps[t].BeginRecover? || steps[t].Crash?)
  }

  /** The disk is in use: open, and neither just opened nor being recovered. */
  predicate InUse(s: State, steps: seq<Step>, t: nat)
    requires t <= |steps|
  {
    s.mem.Up? && !s.mem.phase.RecoverSaving? && !s.mem.phase.RecoverReset? && !(t > 0 && steps[t - 1].Reopen?)
  }

  lemma {:induction false} InUseIsClean(c: Config, run: seq<State>, steps: seq<Step>, t: nat)
    requires |run| == |steps| + 1 && t <= |steps| && Init(c, run[0]) && RecoversFirst(steps)
    requires forall i | 0 <= i < |steps| :: NextStep(c, run[i], run[i + 1], steps[i])
    ensures InUse(run[t], steps, t) ==> CleanLog(c, run[t])
  {
    if t > 0 {
      InUseIsClean(c, run, steps, t - 1);
      assert NextStep(c, run[t - 1], run[t], steps[t - 1]);
      if InUse(run[t - 1], steps, t - 1) && !steps[t - 1].Crash? {
        StepKeepsLogClean(c, run[t - 1], run[t], steps[t - 1]);
      }
    }
  }

  /** Recovering first is all the discipline a disk without failing data writes needs, for either placement. */
  lemma RecoversFirstIsRun(c: Config, run: seq<State>, steps: seq<Step>)
    requires c.Sound() && |run| == |steps| + 1 && Init(c, run[0]) && RecoversFirst(steps)
    requires forall i | 0 <= i < |steps| :: NextStep(c, run[i], run[i + 1], steps[i])
    ensures IsRun(c, run, steps)
  {
    forall t | 0 <= t < |steps|
      ensures Disciplined(c, run[t], steps[t])
    {
      if steps[t].BeginWrite? {
        assert NextStep(c, run[t], run[t + 1], steps[t]);
        InUseIsClean(c, run, steps, t);
        CleanLogIsDisciplined(c, run[t], steps[t]);
      }
    }
  }

  // ---- recovery ----

  /** The bitmap a recovery started now would arrive at. */
  ghost function RecoveredBits(c: Config, s: State): seq<bool>
    requires WellSized(c, s)
  {
    Rollback(c, c.DurableBits(s.dev), ReplayFrom(s.wal, c.layout.walBlocks, 0))
  }

  /** Every state a running Recover passes through, stated so that its steps keep it. */
  ghost predicate Recovering(c: Config, s: State, target: seq<bool>) {
    && c.Sound() && WellSized(c, s) && s.mem.Up?
    && RecoveredBits(c, s) == target
    && match s.mem.phase
       case RecoverSaving => Bits(s.mem.bitmap, c.Blocks()) == target
       case RecoverReset => c.DurableBits(s.dev) == target
       case _ => s.mem.phase.Idle?
  }

  lemma RecoverStepKeepsTarget(c: Config, s: State, s': State, step: Step, target: seq<bool>)
    requires Recovering(c, s, target) && !s.mem.phase.Idle?
    requires NextStep(c, s, s', step) && (step.TearSave? || step.FinishSave? || step.ResetWal?)
    ensures Recovering(c, s', target)
  {
    var entries := ReplayFrom(s.wal, c.layout.walBlocks, 0);
    match step {
      case TearSave =>
        forall i: nat | i < c.Blocks()
          ensures RecoveredBits(c, s')[i] == target[i]
        {
          TornBit(c, s.dev, s.mem.bitmap, s'.dev, i);
          RollbackBit(c, c.DurableBits(s.dev), entries, i);
          RollbackBit(c, c.DurableBits(s'.dev), entries, i);
        }
      case FinishSave =>
        FullSave(c, s.dev, s.mem.bitmap, map[]);
        forall i: nat | i < c.Blocks()
          ensures RecoveredBits(c, s')[i] == target[i]
        {
          RollbackBit(c, c.DurableBits(s.dev), entries, i);
          RollbackBit(c, c.DurableBits(s'.dev), entries, i);
        }
      case ResetWal =>
    }
  }

  /** Recovery is idempotent: stopped by a crash after any of its steps, a second recovery arrives at the bitmap of an
    * uninterrupted one. */
  lemma {:induction false} RecoveryIdempotent(c: Config, s: State, run: seq<State>, steps: seq<Step>, i: nat)
    requires c.Sound() && |run| > 0 && BeginRecoverStep(c, s, run[0])
    requires Bits(s.mem.bitmap, c.Blocks()) == c.DurableBits(s.dev)   // just reopened
    requires |run| == |steps| + 1 && i <= |steps|
    requires forall t | 0 <= t < |steps| ::
               && !run[t].mem.Down? && !run[t].mem.phase.Idle?
               && (steps[t].TearSave? || steps[t].FinishSave? || steps[t].ResetWal?)
               && NextStep(c, run[t], run[t + 1], steps[t])
    ensures WellSized(c, run[i]) && RecoveredBits(c, run[i]) == Bits(run[0].mem.bitmap, c.Blocks())
    ensures Recovering(c, run[i], Bits(run[0].mem.bitmap, c.Blocks()))
  {
    if i > 0 {
      RecoveryIdempotent(c, s, run, steps, i - 1);
      RecoverStepKeepsTarget(c, run[i - 1], run[i], steps[i - 1], Bits(run[0].mem.bitmap, c.Blocks()));
    }
  }
}
