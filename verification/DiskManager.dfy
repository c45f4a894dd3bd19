/** src/data/disk_manager.cpp:191-442: one disk, with its device bytes and its bitmap updated in place.
  *
  * Every public operation is shown to be a sequence of steps of DiskMachine, so whatever holds of all runs of the
  * machine holds of this class, crashes between any two of its steps included.
  */
module DiskManager {
  import opened Bytes
  import opened Types
  import opened Bitmap
  import opened BlockRecord
  import opened DiskMachine
  import Wal

  datatype DiskState = Unknown | Normal

  /** How far a write gets before the process ends: up to the log entry, into the data (so many bytes of the block image
    * reach the device), up to the commit, into the bitmap save. */
  datatype Cut = BeforeLog | InData(taken: nat) | BeforeCommit | InSave(taken: nat)

  // ---- what the operations do to the machine state ----

  /** No run of free blocks is long enough. */
  ghost predicate NoRoom(c: Config, s: State, block: Block)
    requires WellSized(c, s) && s.mem.Up?
  {
    forall t: nat :: !FreeRun(Bits(s.mem.bitmap, c.Blocks()), t, Size(block))
  }

  lemma RoomByRun(c: Config, s: State, block: Block, start: Option<nat>)
    requires WellSized(c, s) && s.mem.Up?
    requires match start
             case Some(t) => FreeRun(Bits(s.mem.bitmap, c.Blocks()), t, Size(block))
             case None => forall t: nat :: !FreeRun(Bits(s.mem.bitmap, c.Blocks()), t, Size(block))
    ensures start.None? <==> NoRoom(c, s, block)
  {
  }

  /** Whether a write is taken: the disk must be open, have a free run long enough, and take the whole block image. */
  ghost function WriteStatus(c: Config, s: State, block: Block, accepted: nat): Status {
    if !WellSized(c, s) || s.mem.Down? then Internal
    else if NoRoom(c, s, block) then NoSpace
    else if accepted < Size(block) * BLOCK then IOError
    else Ok
  }

  /** The block is live at `offset`, the first extent that was free for it, and nothing else changed. */
  ghost predicate Acknowledged(c: Config, s: State, s': State, block: Block, offset: nat) {
    && WellSized(c, s) && WellSized(c, s') && s.mem.Up? && s'.mem.Up?
    && var start := c.StartOf(offset);
    && offset == c.OffsetOf(start)
    && FirstFit(Bits(s.mem.bitmap, c.Blocks()), Size(block), start)
    && start !in s.live && s'.live == s.live[start := block]
    && Bits(s'.mem.bitmap, c.Blocks()) == WithRange(Bits(s.mem.bitmap, c.Blocks()), start, Size(block), true)
  }

  ghost predicate Unacknowledged(c: Config, s: State, s': State) {
    && WellSized(c, s) && WellSized(c, s')
    && s'.live == s.live && s'.mem.Up? == s.mem.Up?
    && (s.mem.Up? ==> Bits(s'.mem.bitmap, c.Blocks()) == Bits(s.mem.bitmap, c.Blocks()))
  }

  /** `offset` and `dataSize` are the location and the size of a live block. */
  ghost predicate IsLiveAt(c: Config, live: map<nat, Block>, offset: nat, dataSize: nat) {
    var start := c.StartOf(offset);
    start in live && offset == c.OffsetOf(start) && dataSize == |live[start].data|
  }

  /** The block and exactly its extent are gone. */
  ghost predicate Deleted(c: Config, s: State, s': State, start: nat) {
    && WellSized(c, s) && WellSized(c, s') && s.mem.Up? && s'.mem.Up?
    && start in s.live && s'.live == s.live - {start}
    && Bits(s'.mem.bitmap, c.Blocks()) == WithRange(Bits(s.mem.bitmap, c.Blocks()), start, Size(s.live[start]), false)
  }

  /** The extents of uncommitted entries are free, in memory and on the device, and the log is empty; while writes were
    * disciplined they were free before, so no bit changed. */
  ghost predicate Recovered(c: Config, s: State, s': State) {
    && WellSized(c, s) && WellSized(c, s') && s.mem.Up? && s'.mem.Up?
    && s'.live == s.live && s'.leaked == s.leaked && s'.wal == map[]
    && Bits(s'.mem.bitmap, c.Blocks()) ==
       Rollback(c, Bits(s.mem.bitmap, c.Blocks()), Wal.ReplayFrom(s.wal, c.layout.walBlocks, 0))
    && Bits(s'.mem.bitmap, c.Blocks()) == Bits(s.mem.bitmap, c.Blocks())
    && c.DurableBits(s'.dev) == Bits(s'.mem.bitmap, c.Blocks())
  }

  ghost predicate Saved(c: Config, s: State, s': State) {
    && WellSized(c, s) && WellSized(c, s') && s.mem.Up?
    && c.DurableBits(s'.dev) == Bits(s.mem.bitmap, c.Blocks())
  }

  /** The process went down between operations and the disk was opened again: same bits, same blocks. */
  ghost predicate Reopened(c: Config, s: State, s': State) {
    && WellSized(c, s) && WellSized(c, s') && s'.mem.Up?
    && s'.live == s.live && s'.leaked == s.leaked && s'.dev == s.dev
    && (s.mem.Up? ==> Bits(s'.mem.bitmap, c.Blocks()) == Bits(s.mem.bitmap, c.Blocks()))
  }

  class DiskManager {
    const config: Config
    const device: array<byte>
    const bitmap: BlockBitmap
    const wal: Wal.WalManager
    var state: DiskState
    ghost var phase: Phase
    ghost var live: map<nat, Block>
    ghost var leaked: set<nat>

    ghost function Repr(): set<object>
      reads this, bitmap
    {
      {this, device, bitmap, bitmap.bytes, wal}
    }

    /** The machine state this object stands for. */
    ghost function Abs(): State
      reads this, device, bitmap, bitmap.bytes, wal
    {
      State(device[..], wal.file,
            if state.Normal? then Up(bitmap.bytes[..], wal.nextSeq, phase) else Down,
            live, leaked)
    }

    ghost predicate Shape()
      reads this, device, bitmap, bitmap.bytes, wal
    {
      && device != bitmap.bytes
      && config.Sound()
      && device.Length == config.DeviceSize()
      && bitmap.Valid() && wal.Valid()
      && wal.placement == config.placement
      && (state.Normal? ==>
            && bitmap.numBlocks == config.Blocks() && bitmap.bytes.Length == config.BitmapSize()
            && wal.isOpen && wal.walBlocks == config.layout.walBlocks)
      && (state.Unknown? ==> !wal.isOpen)
    }

    ghost predicate Valid()
      reads this, device, bitmap, bitmap.bytes, wal
    {
      Shape() && phase.Idle? && Inv(config, Abs())
    }

    /** The allocation bits in memory. */
    ghost function Contents(): seq<bool>
      requires Shape() && state.Normal?
      reads this, device, bitmap, bitmap.bytes, wal
    {
      bitmap.Contents()
    }

    /** A disk just formatted with a sound layout. */
    constructor (c: Config)
      requires c.Sound()
      ensures Valid() && fresh(Repr()) && config == c
      ensures state.Unknown? && live == map[] && leaked == {}
      ensures Init(c, Abs())
    {
      config := c;
      device := new byte[c.DeviceSize()](_ => 0);
      bitmap := new BlockBitmap(0);
      wal := new Wal.WalManager(c.placement);
      state, phase, live, leaked := Unknown, Idle, map[], {};
      new;
      forall i | 0 <= i < c.Blocks()
        ensures !c.DurableBits(device[..])[i]
      {
        ZeroByteBits(i % 8);
      }
    }

    method LoadBitmap()
      requires Shape() && state.Unknown?
      modifies bitmap
      ensures Shape() && fresh(bitmap.bytes)
      ensures bitmap.numBlocks == config.Blocks() && bitmap.bytes[..] == device[BLOCK..BLOCK + config.BitmapSize()]
    {
      var size := config.layout.bitmapBlocks * BLOCK % TWO_32;
      var saved := device[BLOCK..BLOCK + size];
      bitmap.Load(saved, config.layout.dataBlocks);
    }

    method OpenFiles()
      requires Shape() && state.Unknown? && phase.Idle?
      modifies bitmap, wal, this`state
      ensures Shape() && fresh(bitmap.bytes) && state.Normal?
      ensures ReopenStep(config, old(Abs()), Abs())
    {
      LoadBitmap();
      wal.Open(config.layout.walBlocks);
      state := Normal;
    }

    /** OpenExisting: the bitmap is loaded from the device, the WAL is scanned for its next sequence number. */
    method Open()
      requires Valid() && state.Unknown?
      modifies Repr()
      ensures Valid() && fresh(Repr() - old(Repr())) && state.Normal?
      ensures ReopenStep(config, old(Abs()), Abs())
    {
      ghost var s := Abs();
      OpenFiles();
      ReopenKeeps(config, s, Abs());
    }

    method LoseMemory()
      requires Shape() && (state.Unknown? ==> phase.Idle?)
      modifies wal, this`state, this`phase, this`leaked
      ensures Shape() && state.Unknown? && phase.Idle? && CrashStep(config, old(Abs()), Abs())
    {
      leaked := leaked + Left(config, Abs());
      wal.Close();
      state, phase := Unknown, Idle;
    }

    /** The process ends between operations without Close: memory is lost. */
    method Crash()
      requires Valid()
      modifies wal, this`state, this`phase, this`leaked
      ensures Valid() && state.Unknown? && CrashStep(config, old(Abs()), Abs())
      ensures live == old(live) && leaked == old(leaked)
    {
      ghost var s := Abs();
      OnlySavesLeak(config, s);
      LoseMemory();
      CrashKeeps(config, s, Abs());
    }

    /** A crash between operations, and Open of the formatted disk. */
    method Reopen()
      requires Valid()
      modifies Repr()
      ensures Valid() && fresh(Repr() - old(Repr())) && state.Normal?
      ensures Reopened(config, old(Abs()), Abs()) && Survives(config, old(Abs()), Abs())
    {
      ghost var s := Abs();
      Crash();
      ghost var s1 := Abs();
      Open();
      ReopenedBy(config, s, s1, Abs());
      SurvivesNothing(config, s);
      SurvivesStep(config, s, s, s1, Step.Crash);
      SurvivesStep(config, s, s1, Abs(), Step.Reopen);
    }

    /** BlockIOEngine::WriteAt; the device takes `accepted` bytes before it fails, if those are too few. */
    method WriteAt(off: nat, buf: seq<byte>, accepted: nat) returns (ok: bool)
      requires off + |buf| <= device.Length
      modifies device
      ensures ok == (accepted >= |buf|)
      ensures device[..] == Overwrite(old(device[..]), off, if ok then buf else buf[..accepted])
    {
      ok := accepted >= |buf|;
      var n := if ok then |buf| else accepted;
      for i := 0 to n
        invariant forall j | 0 <= j < device.Length ::
                    device[j] == if off <= j < off + i then buf[j - off] else old(device[j])
      {
        device[off + i] := buf[i];
      }
      assert device[..] == Overwrite(old(device[..]), off, if ok then buf else buf[..accepted]);
    }

    /** BlockIOEngine::ReadAt. */
    method ReadAt(off: nat, n: nat) returns (r: Option<seq<byte>>)
      ensures r == if off + n <= device.Length then Some(device[off..off + n]) else None
    {
      if off + n > device.Length {
        return None;
      }
      r := Some(device[off..off + n]);
    }

    /** SaveBitmap hands the whole bitmap to the device; no caller looks at its status. */
    method SaveBitmap()
      requires Shape() && state.Normal?
      modifies device
      ensures Shape()
      ensures device[..] == Overwrite(old(device[..]), BLOCK, bitmap.bytes[..])
    {
      var size := bitmap.bytes.Length % TWO_32;
      assert size == bitmap.bytes.Length == config.BitmapSize() && BLOCK + size <= device.Length;
      assert bitmap.bytes[..size] == bitmap.bytes[..];
      var ok := WriteAt(BLOCK, bitmap.bytes[..size], size);
    }

    // ---- the stages of WriteBlock, one machine step each ----

    method AllocateExtent(block: Block) returns (start: Option<nat>)
      requires Shape() && state.Normal? && phase.Idle? && block.Fits()
      modifies bitmap.bytes, this`phase
      ensures Shape()
      ensures start.None? <==> NoRoom(config, old(Abs()), block)
      ensures start.None? ==> Abs() == old(Abs())
      ensures start.Some? ==> phase == Allocated(Write(block, start.value)) && BeginWriteStep(config, old(Abs()), Abs(), block)
      ensures start.Some? ==> start.value + Size(block) <= config.Blocks()
    {
      ghost var s, bits := Abs(), bitmap.Contents();
      assert bits == Bits(s.mem.bitmap, config.Blocks());
      start := bitmap.Allocate(PhysicalBlocks(|block.data|));
      RoomByRun(config, s, block, start);
      if start.Some? {
        phase := Allocated(Write(block, start.value));
      }
    }

    method LogIntent(block: Block, start: nat) returns (walSeq: nat)
      requires Shape() && state.Normal? && phase == Allocated(Write(block, start))
      modifies wal, this`phase
      ensures Shape()
      ensures phase == Logged(Write(block, start), walSeq) && AppendIntentStep(config, old(Abs()), Abs())
    {
      var status;
      status, walSeq := wal.AppendEntry(block.id, config.OffsetOf(start), |block.data|, block.crc);
      phase := Logged(Write(block, start), walSeq);
    }

    method StoreData(block: Block, start: nat, walSeq: nat, accepted: nat) returns (ok: bool)
      requires Shape() && state.Normal? && phase == Logged(Write(block, start), walSeq)
      requires block.Fits() && start + Size(block) <= config.Blocks()
      modifies device, this`phase
      ensures Shape()
      ensures ok == (accepted >= Size(block) * BLOCK)
      ensures ok ==> phase == DataWritten(Write(block, start), walSeq) && WriteDataStep(config, old(Abs()), Abs())
      ensures !ok ==> phase == old(phase) && TearDataStep(config, old(Abs()), Abs())
    {
      ghost var dev := device[..];
      var buf := Image(block);
      ok := WriteAt(config.OffsetOf(start), buf, accepted);
      if ok {
        phase := DataWritten(Write(block, start), walSeq);
      } else {
        PrefixIsTorn(dev, config.OffsetOf(start), buf, accepted);
      }
    }

    method RollBack(block: Block, start: nat, walSeq: nat)
      requires Shape() && state.Normal? && phase == Logged(Write(block, start), walSeq)
      requires start + Size(block) <= config.Blocks()
      modifies bitmap.bytes, this`phase
      ensures Shape() && phase.Idle? && FailDataStep(config, old(Abs()), Abs())
    {
      bitmap.Free(start, PhysicalBlocks(|block.data|));
      phase := Idle;
    }

    method CommitLog(block: Block, start: nat, walSeq: nat)
      requires Shape() && state.Normal? && phase == DataWritten(Write(block, start), walSeq)
      modifies wal, this`phase
      ensures Shape()
      ensures phase == WriteSaving(Write(block, start)) && CommitIntentStep(config, old(Abs()), Abs())
    {
      if walSeq > 0 {
        var status := wal.CommitEntry(walSeq);
      }
      phase := WriteSaving(Write(block, start));
    }

    method SaveAndAcknowledge(block: Block, start: nat)
      requires Shape() && state.Normal? && phase == WriteSaving(Write(block, start))
      modifies device, this`phase, this`live
      ensures Shape() && phase.Idle? && FinishSaveStep(config, old(Abs()), Abs())
    {
      SaveBitmap();
      phase, live := Idle, live[start := block];
    }

    /** WriteBlock after the allocation: log, store, then commit and save or roll back. */
    method WriteAllocated(block: Block, start: nat, accepted: nat, ghost s0: State)
      returns (ok: bool, ghost run: seq<State>, ghost steps: seq<Step>)
      requires Shape() && state.Normal? && phase == Allocated(Write(block, start))
      requires start + Size(block) <= config.Blocks()
      requires Inv(config, s0) && BeginWriteStep(config, s0, Abs(), block)
      requires Disciplined(config, s0, BeginWrite(block))
      modifies device, bitmap.bytes, wal, this`phase, this`live
      ensures Shape() && phase.Idle? && Inv(config, Abs())
      ensures Steps(config, run, steps) && run[0] == s0 && run[|steps|] == Abs()
      ensures ok == (accepted >= Size(block) * BLOCK)
      ensures if ok then Acknowledged(config, s0, Abs(), block, config.OffsetOf(start)) else Unacknowledged(config, s0, Abs())
    {
      ghost var s1 := Abs();
      var walSeq := LogIntent(block, start);
      ghost var s2 := Abs();
      ok := StoreData(block, start, walSeq, accepted);
      ghost var s3 := Abs();
      if ok {
        CommitLog(block, start, walSeq);
        ghost var s4 := Abs();
        SaveAndAcknowledge(block, start);
        run, steps := WriteCompletes(config, block, s0, s1, s2, s3, s4, Abs());
      } else {
        RollBack(block, start, walSeq);
        run, steps := FailedWriteRun(config, block, s0, s1, s2, s3, Abs());
      }
    }

    /** WriteBlock, src/data/disk_manager.cpp:253-319. `accepted` is how many bytes of the block image the device takes;
      * `run` and `steps` are the machine steps taken. */
    method WriteBlock(block: Block, accepted: nat)
      returns (status: Status, offset: nat, ghost run: seq<State>, ghost steps: seq<Step>)
      requires Valid() && block.Fits()
      requires Disciplined(config, Abs(), BeginWrite(block))
      modifies device, bitmap.bytes, wal, this`phase, this`live
      ensures Valid()
      ensures Steps(config, run, steps) && run[0] == old(Abs()) && run[|steps|] == Abs()
      ensures status == WriteStatus(config, old(Abs()), block, accepted)
      ensures status == Internal <==> old(state).Unknown?
      ensures status == NoSpace <==> old(state).Normal? && NoRoom(config, old(Abs()), block)
      ensures status == IOError ==> accepted < Size(block) * BLOCK
      ensures status == Ok ==> Acknowledged(config, old(Abs()), Abs(), block, offset)
      ensures status != Ok ==> Unacknowledged(config, old(Abs()), Abs())
    {
      ghost var s0 := Abs();
      run, steps, offset := [s0], [], 0;
      if state != Normal {
        status := Internal;
        return;
      }
      var start := AllocateExtent(block);
      if start.None? {
        status := NoSpace;
        return;
      }
      var ok;
      ok, run, steps := WriteAllocated(block, start.value, accepted, s0);
      offset := config.OffsetOf(start.value);
      status := if ok then Ok else IOError;
    }

    // ---- a write the end of the process cuts off ----

    /** Part of the bitmap reaches the device. */
    method SavePart(taken: nat)
      requires Shape() && state.Normal? && phase.WriteSaving?
      modifies device
      ensures Shape() && TearSaveStep(config, old(Abs()), Abs())
    {
      ghost var dev := device[..];
      var size := Min(taken, bitmap.bytes.Length % TWO_32);
      assert BLOCK + size <= device.Length && bitmap.bytes[..size] == bitmap.bytes[..][..size];
      PrefixIsTorn(dev, BLOCK, bitmap.bytes[..], size);
      var ok := WriteAt(BLOCK, bitmap.bytes[..size], size);
    }

    method WriteAllocatedUpTo(block: Block, start: nat, cut: Cut, ghost s0: State)
      requires Shape() && state.Normal? && phase == Allocated(Write(block, start))
      requires block.Fits() && start + Size(block) <= config.Blocks() && Survives(config, s0, Abs())
      modifies device, wal, this`phase
      ensures Shape() && Survives(config, s0, Abs())
      ensures !cut.InSave? ==> !phase.WriteSaving? && !phase.DeleteSaving?
    {
      if cut.BeforeLog? {
        return;
      }
      ghost var s1 := Abs();
      var walSeq := LogIntent(block, start);
      ghost var s2 := Abs();
      SurvivesStep(config, s0, s1, s2, AppendIntent);
      var ok := StoreData(block, start, walSeq, if cut.InData? then cut.taken else Size(block) * BLOCK);
      ghost var s3 := Abs();
      SurvivesStep(config, s0, s2, s3, if ok then WriteData else TearData);
      if cut.InSave? {
        CommitAndSavePart(block, start, walSeq, cut.taken, s0);
      }
    }

    method CommitAndSavePart(block: Block, start: nat, walSeq: nat, taken: nat, ghost s0: State)
      requires Shape() && state.Normal? && phase == DataWritten(Write(block, start), walSeq) && Survives(config, s0, Abs())
      modifies device, wal, this`phase
      ensures Shape() && Survives(config, s0, Abs())
    {
      ghost var s3 := Abs();
      CommitLog(block, start, walSeq);
      ghost var s4 := Abs();
      SurvivesStep(config, s0, s3, s4, CommitIntent);
      SavePart(taken);
      SurvivesStep(config, s0, s4, Abs(), TearSave);
    }

    method WriteUpTo(block: Block, cut: Cut)
      requires Shape() && state.Normal? && phase.Idle? && block.Fits() && Disciplined(config, Abs(), BeginWrite(block))
      modifies device, bitmap.bytes, wal, this`phase
      ensures Shape() && Survives(config, old(Abs()), Abs())
      ensures !cut.InSave? ==> !phase.WriteSaving? && !phase.DeleteSaving?
    {
      ghost var s0 := Abs();
      SurvivesNothing(config, s0);
      var start := AllocateExtent(block);
      if start.Some? {
        SurvivesStep(config, s0, s0, Abs(), BeginWrite(block));
        WriteAllocatedUpTo(block, start.value, cut, s0);
      }
    }

    /** WriteBlock up to where the process ends. */
    method WriteCutOff(block: Block, cut: Cut)
      requires Valid() && state.Normal? && block.Fits() && Disciplined(config, Abs(), BeginWrite(block))
      modifies device, bitmap.bytes, wal, this`phase, this`state, this`leaked
      ensures Valid() && state.Unknown? && live == old(live)
      ensures Survives(config, old(Abs()), Abs()) && (!cut.InSave? ==> leaked == old(leaked))
    {
      ghost var s0 := Abs();
      WriteUpTo(block, cut);
      ghost var s := Abs();
      if !cut.InSave? {
        OnlySavesLeak(config, s);
      }
      LoseMemory();
      SurvivesStep(config, s0, s, Abs(), Step.Crash);
      SurvivesKeeps(config, s0, Abs());
    }

    /** A write cut off by the end of the process, and Open of the formatted disk. */
    method WriteCutOffAndReopen(block: Block, cut: Cut)
      requires Valid() && state.Normal? && block.Fits() && Disciplined(config, Abs(), BeginWrite(block))
      modifies Repr()
      ensures Valid() && fresh(Repr() - old(Repr())) && state.Normal? && live == old(live)
      ensures Survives(config, old(Abs()), Abs()) && (!cut.InSave? ==> leaked == old(leaked))
    {
      ghost var s0 := Abs();
      WriteCutOff(block, cut);
      ghost var s1 := Abs();
      Open();
      SurvivesStep(config, s0, s1, Abs(), Step.Reopen);
    }

    /** ReadBlock, src/data/disk_manager.cpp:321-359: header, magic test, payload. No checksum is compared here. */
    method ReadBlock(offset: nat) returns (status: Status, r: ReadResult)
      requires Shape()
      ensures state.Unknown? ==> status == IOError
      ensures state.Normal? ==> r == ReadFrom(device[..], offset)
      ensures state.Normal? ==> status == match r case ReadOk(_, _, _) => Ok case ReadFailed(bad) => if bad then Internal else IOError
      ensures state.Normal? ==>
                (status == Internal <==>
                   offset + BLOCK_HEADER_SIZE <= device.Length && device[offset..offset + 4] != EncodeWord(BLOCK_MAGIC))
    {
      BadMagicExactly(device[..], offset);
      assert offset + 4 <= device.Length ==> device[..][offset..offset + 4] == device[offset..offset + 4];
      if state != Normal {
        return IOError, ReadFailed(false);
      }
      var hdrBuf := ReadAt(offset, BLOCK_HEADER_SIZE);
      if hdrBuf.None? {
        return IOError, ReadFailed(false);
      }
      var hdr := DecodeHeader(hdrBuf.value);
      if hdr.magic != BLOCK_MAGIC {
        return Internal, ReadFailed(true);
      }
      var data: seq<byte> := [];
      if hdr.dataSize > 0 {
        var payload := ReadAt(offset + BLOCK_HEADER_SIZE, hdr.dataSize);
        if payload.None? {
          return IOError, ReadFailed(false);
        }
        data := payload.value;
      }
      return Ok, ReadOk(hdr.id, hdr.crc, data);
    }

    /** SaveBitmap as the last step of a delete or of a recovery's bitmap update. */
    method FinishSaving(next: Phase)
      requires Shape() && state.Normal?
      requires (phase.DeleteSaving? && next.Idle?) || (phase.RecoverSaving? && next.RecoverReset?)
      modifies device, this`phase
      ensures Shape() && phase == next && FinishSaveStep(config, old(Abs()), Abs())
    {
      SaveBitmap();
      phase := next;
    }

    method ReleaseExtent(offset: nat, dataSize: nat)
      requires Shape() && state.Normal? && phase.Idle?
      requires IsLiveAt(config, live, offset, dataSize)
      modifies bitmap.bytes, this`phase, this`live
      ensures Shape() && phase.DeleteSaving?
      ensures BeginDeleteStep(config, old(Abs()), Abs(), config.StartOf(offset))
    {
      var physBlocks := PhysicalBlocks(dataSize);
      var startBlock := config.StartOf(offset);
      bitmap.Free(startBlock, physBlocks);
      phase, live := DeleteSaving(startBlock, physBlocks), live - {startBlock};
    }

    /** DeleteBlock, src/data/disk_manager.cpp:361-377, for the location of a live block: its extent is found from the
      * offset and the size alone. */
    method DeleteBlock(offset: nat, dataSize: nat) returns (status: Status, ghost run: seq<State>, ghost steps: seq<Step>)
      requires Valid()
      requires state.Normal? ==> IsLiveAt(config, live, offset, dataSize)
      modifies device, bitmap.bytes, this`phase, this`live
      ensures Valid()
      ensures Steps(config, run, steps) && run[0] == old(Abs()) && run[|steps|] == Abs()
      ensures status == if state.Normal? then Ok else Internal
      ensures status == Ok ==> Deleted(config, old(Abs()), Abs(), config.StartOf(offset))
      ensures status != Ok ==> Abs() == old(Abs())
    {
      ghost var s0 := Abs();
      if state != Normal {
        return Internal, [s0], [];
      }
      ReleaseExtent(offset, dataSize);
      ghost var s1 := Abs();
      FinishSaving(Idle);
      run, steps := DeleteCompletes(config, config.StartOf(offset), s0, s1, Abs());
      status := Ok;
    }

    method RollBackEntries()
      requires Shape() && state.Normal? && phase.Idle?
      modifies bitmap.bytes, this`phase
      ensures Shape() && phase.RecoverSaving? && BeginRecoverStep(config, old(Abs()), Abs())
    {
      ghost var bits := bitmap.Contents();
      var status, entries := wal.Replay();
      for i := 0 to |entries|
        invariant Shape()
        invariant Rollback(config, bits, entries) == Rollback(config, bitmap.Contents(), entries[i..])
      {
        var entry := entries[i];
        assert entries[i..][1..] == entries[i + 1..];
        if !entry.committed {
          var physBlocks := PhysicalBlocks(entry.dataSize);
          var startBlock := config.StartOf(entry.dataOffset);
          bitmap.Free(startBlock, physBlocks);
        }
      }
      phase := RecoverSaving;
    }

    method ResetLog()
      requires Shape() && state.Normal? && phase.RecoverReset?
      modifies wal, this`phase
      ensures Shape() && phase.Idle? && ResetWalStep(config, old(Abs()), Abs())
    {
      var status := wal.Reset();
      phase := Idle;
    }

    method RunRecovery() returns (ghost s1: State, ghost s2: State)
      requires Shape() && state.Normal? && phase.Idle?
      modifies device, bitmap.bytes, wal, this`phase
      ensures Shape() && phase.Idle?
      ensures BeginRecoverStep(config, old(Abs()), s1) && FinishSaveStep(config, s1, s2) && ResetWalStep(config, s2, Abs())
    {
      RollBackEntries();
      s1 := Abs();
      FinishSaving(RecoverReset);
      s2 := Abs();
      ResetLog();
    }

    /** Recover, src/data/disk_manager.cpp:379-408; without an open log it does nothing. */
    method Recover() returns (status: Status, ghost run: seq<State>, ghost steps: seq<Step>)
      requires Valid()
      modifies device, bitmap.bytes, wal, this`phase
      ensures Valid() && status == Ok
      ensures Steps(config, run, steps) && run[0] == old(Abs()) && run[|steps|] == Abs()
      ensures if state.Normal? then Recovered(config, old(Abs()), Abs()) else Abs() == old(Abs())
      ensures Survives(config, old(Abs()), Abs())
    {
      ghost var s0 := Abs();
      if !wal.isOpen {
        SurvivesNothing(config, s0);
        return Ok, [s0], [];
      }
      ghost var s1, s2 := RunRecovery();
      run, steps := RecoverCompletes(config, s0, s1, s2, Abs());
      RecoverSurvives(config, s0, s1, s2, Abs());
      status := Ok;
    }

    method SaveAndClose()
      requires Shape() && state.Normal? && phase.Idle?
      modifies device, wal, this`state
      ensures Shape() && state.Unknown? && phase.Idle?
      ensures var s := old(Abs()); FinishSaveStep(config, s.(mem := s.mem.(phase := CloseSaving)), Abs())
    {
      SaveBitmap();
      wal.Close();
      state := Unknown;
    }

    /** Close, src/data/disk_manager.cpp:239-251: the bitmap is saved once more. */
    method Close() returns (ghost run: seq<State>, ghost steps: seq<Step>)
      requires Valid()
      modifies device, wal, this`state
      ensures Valid() && state.Unknown?
      ensures Steps(config, run, steps) && run[0] == old(Abs()) && run[|steps|] == Abs()
      ensures old(state).Normal? ==> Saved(config, old(Abs()), Abs())
      ensures live == old(live)
    {
      ghost var s0 := Abs();
      if state == Unknown {
        return [s0], [];
      }
      SaveAndClose();
      run, steps := CloseCompletes(config, s0, Abs());
    }

    method FreeBlockCount() returns (free: nat)
      requires Shape()
      ensures free == CountFree(bitmap.Contents())
    {
      free := bitmap.FreeBlocks();
    }
  }

  lemma OnlySavesLeak(c: Config, s: State)
    requires s.mem.Up? ==> !s.mem.phase.WriteSaving? && !s.mem.phase.DeleteSaving?
    ensures Left(c, s) == {}
  {
  }

  /** In an idle state the device holds the bits of memory. */
  lemma ReopenedBy(c: Config, s0: State, s1: State, s2: State)
    requires Inv(c, s0) && (s0.mem.Up? ==> s0.mem.phase.Idle?)
    requires CrashStep(c, s0, s1) && ReopenStep(c, s1, s2)
    ensures Reopened(c, s0, s2)
  {
    OnlySavesLeak(c, s0);
    if s0.mem.Up? {
      forall i: nat | i < c.Blocks()
        ensures Bits(s0.mem.bitmap, c.Blocks())[i] == c.DurableBits(s0.dev)[i]
      {
        assert BlockOk(c, s0, i);
      }
    }
  }

  lemma TwoSteps(c: Config, s0: State, step0: Step, s1: State, step1: Step, s2: State)
    returns (run: seq<State>, steps: seq<Step>)
    requires Disciplined(c, s0, step0) && NextStep(c, s0, s1, step0)
    requires Disciplined(c, s1, step1) && NextStep(c, s1, s2, step1)
    ensures Steps(c, run, steps) && run == [s0, s1, s2] && steps == [step0, step1]
  {
    run, steps := [s0, s1, s2], [step0, step1];
  }

  lemma DeletedBy(c: Config, start: nat, s0: State, s1: State, s2: State)
    requires BeginDeleteStep(c, s0, s1, start) && FinishSaveStep(c, s1, s2)
    ensures Deleted(c, s0, s2, start)
  {
  }

  lemma DeleteCompletes(c: Config, start: nat, s0: State, s1: State, s2: State)
    returns (run: seq<State>, steps: seq<Step>)
    requires Inv(c, s0) && BeginDeleteStep(c, s0, s1, start) && FinishSaveStep(c, s1, s2)
    ensures Steps(c, run, steps) && run[0] == s0 && run[|steps|] == s2
    ensures Inv(c, s2) && Deleted(c, s0, s2, start)
  {
    DeletedBy(c, start, s0, s1, s2);
    run, steps := TwoSteps(c, s0, BeginDelete(start), s1, FinishSave, s2);
    StepsKeepInv(c, run, steps, 2);
  }

  lemma RecoverCompletes(c: Config, s0: State, s1: State, s2: State, s3: State)
    returns (run: seq<State>, steps: seq<Step>)
    requires Inv(c, s0) && BeginRecoverStep(c, s0, s1) && FinishSaveStep(c, s1, s2) && ResetWalStep(c, s2, s3)
    ensures Steps(c, run, steps) && run[0] == s0 && run[|steps|] == s3
    ensures Inv(c, s3) && Recovered(c, s0, s3)
  {
    RecoverKeeps(c, s0, s1, s2, s3);
    RecoverFreesNothing(c, s0, s1);
    FullSave(c, s1.dev, s1.mem.bitmap, map[]);
    run, steps := RecoverRun(c, s0, s1, s2, s3);
  }

  lemma RecoverSurvives(c: Config, s0: State, s1: State, s2: State, s3: State)
    requires NextStep(c, s0, s1, BeginRecover) && NextStep(c, s1, s2, FinishSave) && NextStep(c, s2, s3, ResetWal)
    ensures Survives(c, s0, s3)
  {
    SurvivesNothing(c, s0);
    SurvivesStep(c, s0, s0, s1, BeginRecover);
    SurvivesStep(c, s0, s1, s2, FinishSave);
    SurvivesStep(c, s0, s2, s3, ResetWal);
  }

  lemma RecoverKeeps(c: Config, s0: State, s1: State, s2: State, s3: State)
    requires Inv(c, s0) && BeginRecoverStep(c, s0, s1) && FinishSaveStep(c, s1, s2) && ResetWalStep(c, s2, s3)
    ensures Inv(c, s3) && c.Sound() && |s1.dev| == c.DeviceSize()
  {
    BeginRecoverKeeps(c, s0, s1);
    FinishSaveKeeps(c, s1, s2);
    ResetWalKeeps(c, s2, s3);
  }

  lemma OneMoreStep(c: Config, run: seq<State>, steps: seq<Step>, last: State, s: State, step: Step)
    returns (run': seq<State>, steps': seq<Step>)
    requires Steps(c, run, steps) && run[|steps|] == last
    requires Disciplined(c, last, step) && NextStep(c, last, s, step)
    ensures Steps(c, run', steps') && run'[0] == run[0] && run'[|steps'|] == s
  {
    run', steps' := run + [s], steps + [step];
    forall i | 0 <= i < |steps'|
      ensures Disciplined(c, run'[i], steps'[i]) && NextStep(c, run'[i], run'[i + 1], steps'[i])
    {
      if i < |steps| {
        assert run'[i] == run[i] && run'[i + 1] == run[i + 1] && steps'[i] == steps[i];
      } else {
        assert run'[i] == last && run'[i + 1] == s && steps'[i] == step;
      }
    }
  }

  lemma RecoverRun(c: Config, s0: State, s1: State, s2: State, s3: State) returns (run: seq<State>, steps: seq<Step>)
    requires NextStep(c, s0, s1, BeginRecover) && NextStep(c, s1, s2, FinishSave) && NextStep(c, s2, s3, ResetWal)
    ensures Steps(c, run, steps) && run[0] == s0 && run[|steps|] == s3
  {
    run, steps := TwoSteps(c, s0, BeginRecover, s1, FinishSave, s2);
    run, steps := OneMoreStep(c, run, steps, s2, s3, ResetWal);
  }

  lemma CloseCompletes(c: Config, s0: State, s2: State)
    returns (run: seq<State>, steps: seq<Step>)
    requires Inv(c, s0) && s0.mem.Up? && s0.mem.phase.Idle?
    requires FinishSaveStep(c, s0.(mem := s0.mem.(phase := CloseSaving)), s2)
    ensures Steps(c, run, steps) && run[0] == s0 && run[|steps|] == s2
    ensures Inv(c, s2) && Saved(c, s0, s2) && s2.live == s0.live
  {
    var s1 := s0.(mem := s0.mem.(phase := CloseSaving));
    run, steps := TwoSteps(c, s0, BeginClose, s1, FinishSave, s2);
    StepsKeepInv(c, run, steps, 2);
    FullSave(c, s1.dev, s1.mem.bitmap, map[]);
  }

  lemma FailedWriteRun(c: Config, block: Block, s0: State, s1: State, s2: State, s3: State, s4: State)
    returns (run: seq<State>, steps: seq<Step>)
    requires Inv(c, s0)
    requires BeginWriteStep(c, s0, s1, block) && AppendIntentStep(c, s1, s2)
    requires TearDataStep(c, s2, s3) && FailDataStep(c, s3, s4)
    requires Disciplined(c, s0, BeginWrite(block))
    ensures Steps(c, run, steps) && run[0] == s0 && run[|steps|] == s4
    ensures Inv(c, s4) && Unacknowledged(c, s0, s4)
  {
    run, steps := [s0, s1, s2, s3, s4], [BeginWrite(block), AppendIntent, TearData, FailData];
    StepsKeepInv(c, run, steps, 4);
  }

  lemma AcknowledgedBy(c: Config, block: Block, s0: State, s1: State, s2: State, s3: State, s4: State, s5: State)
    requires c.Sound() && BeginWriteStep(c, s0, s1, block) && AppendIntentStep(c, s1, s2)
    requires WriteDataStep(c, s2, s3) && CommitIntentStep(c, s3, s4) && FinishSaveStep(c, s4, s5)
    requires s1.mem.phase.w.start !in s0.live
    ensures Acknowledged(c, s0, s5, block, c.OffsetOf(s1.mem.phase.w.start))
  {
    c.StartOfOffset(s1.mem.phase.w.start);
  }

  lemma WriteKeeps(c: Config, block: Block, s0: State, s1: State, s2: State, s3: State, s4: State, s5: State)
    requires Inv(c, s0) && Disciplined(c, s0, BeginWrite(block))
    requires BeginWriteStep(c, s0, s1, block) && AppendIntentStep(c, s1, s2)
    requires WriteDataStep(c, s2, s3) && CommitIntentStep(c, s3, s4) && FinishSaveStep(c, s4, s5)
    ensures Inv(c, s5) && s1.mem.phase.w.start !in s0.live
  {
    BeginWriteKeeps(c, s0, s1, block);
    AppendIntentKeeps(c, s1, s2);
    WriteDataKeeps(c, s2, s3);
    CommitIntentKeeps(c, s3, s4);
    PendingIsNotLive(c, s4, s1.mem.phase.w);
    FinishSaveKeeps(c, s4, s5);
  }

  lemma WriteRun(c: Config, block: Block, s0: State, s1: State, s2: State, s3: State, s4: State, s5: State)
    returns (run: seq<State>, steps: seq<Step>)
    requires Disciplined(c, s0, BeginWrite(block))
    requires NextStep(c, s0, s1, BeginWrite(block)) && NextStep(c, s1, s2, AppendIntent)
    requires NextStep(c, s2, s3, WriteData) && NextStep(c, s3, s4, CommitIntent) && NextStep(c, s4, s5, FinishSave)
    ensures Steps(c, run, steps) && run[0] == s0 && run[|steps|] == s5
  {
    run, steps := TwoSteps(c, s0, BeginWrite(block), s1, AppendIntent, s2);
    run, steps := OneMoreStep(c, run, steps, s2, s3, WriteData);
    run, steps := OneMoreStep(c, run, steps, s3, s4, CommitIntent);
    run, steps := OneMoreStep(c, run, steps, s4, s5, FinishSave);
  }

  lemma WriteCompletes(c: Config, block: Block, s0: State, s1: State, s2: State, s3: State, s4: State, s5: State)
    returns (run: seq<State>, steps: seq<Step>)
    requires Inv(c, s0) && Disciplined(c, s0, BeginWrite(block))
    requires BeginWriteStep(c, s0, s1, block) && AppendIntentStep(c, s1, s2)
    requires WriteDataStep(c, s2, s3) && CommitIntentStep(c, s3, s4) && FinishSaveStep(c, s4, s5)
    ensures Steps(c, run, steps) && run[0] == s0 && run[|steps|] == s5
    ensures Inv(c, s5) && Acknowledged(c, s0, s5, block, c.OffsetOf(s1.mem.phase.w.start))
  {
    WriteKeeps(c, block, s0, s1, s2, s3, s4, s5);
    AcknowledgedBy(c, block, s0, s1, s2, s3, s4, s5);
    run, steps := WriteRun(c, block, s0, s1, s2, s3, s4, s5);
  }
}
