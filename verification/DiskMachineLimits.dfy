/** Where the promises of DiskMachine end: the writes after which a crash loses an acknowledged block, for any disk whose
  * log replays; the rejected bitmap saves after which one does, and the crashes after which blocks stay allocated for
  * nothing, for any disk whatever. */
module DiskMachineLimits {
  import opened Bytes
  import opened Bitmap
  import opened BlockRecord
  import opened Wal
  import opened DiskMachine

  /** Steps of the machine, disciplined or not. */
  ghost predicate Path(c: Config, run: seq<State>, steps: seq<Step>) {
    && |run| == |steps| + 1
    && forall i | 0 <= i < |steps| :: NextStep(c, run[i], run[i + 1], steps[i])
  }

  lemma JoinPaths(c: Config, run1: seq<State>, steps1: seq<Step>, run2: seq<State>, steps2: seq<Step>)
    requires Path(c, run1, steps1) && Path(c, run2, steps2) && run2[0] == run1[|steps1|]
    ensures Path(c, run1 + run2[1..], steps1 + steps2)
    ensures (run1 + run2[1..])[|steps1| + |steps2|] == run2[|steps2|]
  {
    var run, steps := run1 + run2[1..], steps1 + steps2;
    forall i | 0 <= i < |steps|
      ensures NextStep(c, run[i], run[i + 1], steps[i])
    {
      if i >= |steps1| {
        var j := i - |steps1|;
        assert run[i] == run2[j] && run[i + 1] == run2[j + 1] && steps[i] == steps2[j];
      } else {
        assert run[i] == run1[i] && run[i + 1] == run1[i + 1] && steps[i] == steps1[i];
      }
    }
  }

  ghost function BitsOf(c: Config, s: State): seq<bool>
    requires WellSized(c, s) && s.mem.Up?
  {
    Bits(s.mem.bitmap, c.Blocks())
  }

  /** Open and between operations, with a free run for the block at `start`. */
  ghost predicate Ready(c: Config, s: State, block: Block, start: nat) {
    && c.Sound() && WellSized(c, s) && s.mem.Up? && s.mem.phase.Idle?
    && block.Fits() && FirstFit(BitsOf(c, s), Size(block), start)
  }

  // ---- a write up to its bitmap save ----

  function WriteSteps(block: Block): (steps: seq<Step>)
    ensures |steps| == 4
  {
    [BeginWrite(block), AppendIntent, WriteData, CommitIntent]
  }

  /** The log after the intent of `w` was appended and, if it fitted, committed. */
  function LogAfterWrite(c: Config, s: State, w: Write): WalFile
    requires WellSized(c, s) && s.mem.Up?
  {
    var st := Appended(c.placement, c.layout.walBlocks, WalState(s.wal, s.mem.nextSeq), Intent(c, w));
    Committed(c.placement, c.layout.walBlocks, st.file,
              if InLog(SlotOffset(c.placement, s.mem.nextSeq), c.layout.walBlocks) then s.mem.nextSeq else 0)
  }

  ghost predicate Written(c: Config, s: State, w: Write, t: State) {
    && WellSized(c, s) && s.mem.Up? && WellSized(c, t) && t.mem.Up?
    && t.mem.phase == WriteSaving(w) && t.live == s.live && t.leaked == s.leaked
    && BitsOf(c, t) == WithRange(BitsOf(c, s), w.start, Size(w.block), true)
    && t.wal == LogAfterWrite(c, s, w)
    && w.block.Fits() && c.OffsetOf(w.start) + |Image(w.block)| <= |s.dev|
    && t.dev == Overwrite(s.dev, c.OffsetOf(w.start), Image(w.block))
  }

  lemma WriteUpToSave(c: Config, s: State, block: Block, start: nat) returns (run: seq<State>)
    requires Ready(c, s, block, start)
    ensures Path(c, run, WriteSteps(block)) && run[0] == s
    ensures Written(c, s, Write(block, start), run[4])
  {
    var w := Write(block, start);
    var bm := PackBits(WithRange(BitsOf(c, s), start, Size(block), true), c.BitmapSize());
    var s1 := s.(mem := s.mem.(bitmap := bm, phase := Allocated(w)));
    var st := Appended(c.placement, c.layout.walBlocks, WalState(s.wal, s.mem.nextSeq), Intent(c, w));
    var seqNo := if InLog(SlotOffset(c.placement, s.mem.nextSeq), c.layout.walBlocks) then s.mem.nextSeq else 0;
    var s2 := s1.(wal := st.file, mem := s1.mem.(nextSeq := st.nextSeq, phase := Logged(w, seqNo)));
    var s3 := s2.(dev := Overwrite(s.dev, c.OffsetOf(start), Image(block)), mem := s2.mem.(phase := DataWritten(w, seqNo)));
    var s4 := s3.(wal := LogAfterWrite(c, s, w), mem := s3.mem.(phase := WriteSaving(w)));
    assert BeginWriteStep(c, s, s1, block);
    assert AppendIntentStep(c, s1, s2);
    assert WriteDataStep(c, s2, s3);
    assert CommitIntentStep(c, s3, s4);
    run := [s, s1, s2, s3, s4];
  }

  // ---- acknowledged, then lost ----

  function RecoverySteps(): (steps: seq<Step>)
    ensures |steps| == 4
  {
    [FinishSave, Crash, Step.Reopen, BeginRecover]
  }

  /** The write is acknowledged; then a crash, a reopening, and the rollback of a recovery. */
  lemma AcknowledgedThenRecovered(c: Config, t: State, w: Write) returns (run: seq<State>)
    requires c.Sound() && WellSized(c, t) && t.mem.Up? && t.mem.phase == WriteSaving(w)
    ensures Path(c, run, RecoverySteps()) && run[0] == t && run[1].live == t.live[w.start := w.block]
    ensures var u := run[4];
            && WellSized(c, u) && u.mem.Up? && u.mem.phase.RecoverSaving? && u.live == t.live[w.start := w.block]
            && BitsOf(c, u) == Rollback(c, BitsOf(c, t), ReplayFrom(t.wal, c.layout.walBlocks, 0))
  {
    var t1 := t.(dev := Overwrite(t.dev, BLOCK, t.mem.bitmap), mem := t.mem.(phase := Idle), live := t.live[w.start := w.block]);
    var t2 := t1.(mem := Down, leaked := t1.leaked + Left(c, t1));
    var t3 := t2.(mem := Up(t.mem.bitmap, MaxSeqFrom(t.wal, c.layout.walBlocks, 0, 0) + 1, Idle));
    var bm := PackBits(Rollback(c, BitsOf(c, t), ReplayFrom(t.wal, c.layout.walBlocks, 0)), c.BitmapSize());
    var t4 := t3.(mem := t3.mem.(bitmap := bm, phase := RecoverSaving));
    assert FinishSaveStep(c, t, t1);
    assert CrashStep(c, t1, t2);
    assert ReopenStep(c, t2, t3);
    assert BeginRecoverStep(c, t3, t4);
    run := [t, t1, t2, t3, t4];
  }

  /** A live block lies on a physical block that is free. */
  ghost predicate LiveBlockFreed(c: Config, s: State) {
    && WellSized(c, s) && s.mem.Up?
    && exists k, i: nat :: k in s.live && k <= i < k + Size(s.live[k]) && i < c.Blocks() && !BitsOf(c, s)[i]
  }

  lemma InvFreesNoLiveBlock(c: Config, s: State)
    requires Inv(c, s)
    ensures !LiveBlockFreed(c, s)
  {
    if s.mem.Up? {
      forall k | k in s.live
        ensures forall i | k <= i < k + Size(s.live[k]) :: BitsOf(c, s)[i]
      {
        LiveBits(c, s, k);
      }
    }
  }

  function LossSteps(block: Block): (steps: seq<Step>)
    ensures |steps| == 8
  {
    WriteSteps(block) + RecoverySteps()
  }

  /** From `s`, writing `block`, crashing after the acknowledgement and recovering can free a live block. */
  ghost predicate CanLose(c: Config, s: State, block: Block) {
    exists run :: Path(c, run, LossSteps(block)) && run[0] == s && LiveBlockFreed(c, run[|LossSteps(block)|])
  }

  /** An entry recovery would roll back outlasts the next write: that write's own entry goes into a later slot. */
  lemma EntrySurvives(c: Config, s: State, w: Write, i: nat)
    requires c.placement.Intended? && Inv(c, s) && s.mem.Up?
    requires RolledBack(c, ReplayFrom(s.wal, c.layout.walBlocks, 0), i)
    ensures RolledBack(c, ReplayFrom(LogAfterWrite(c, s, w), c.layout.walBlocks, 0), i)
  {
    var walBlocks, hdr := c.layout.walBlocks, Intent(c, w);
    var log: seq<WalHeader> :| Represents(s.wal, walBlocks, log) && s.mem.nextSeq == |log| + 1;
    var e :| e in ReplayFrom(s.wal, walBlocks, 0) && Frees(c, e, i);
    var off := ReplayedFromFile(s.wal, walBlocks, 0, e);
    ReplaysSlot(s.wal, walBlocks, log, off);
    var log' := SomeAppendIsRepresented(walBlocks, WalState(s.wal, s.mem.nextSeq), log, hdr);
    var st := Appended(Intended, walBlocks, WalState(s.wal, s.mem.nextSeq), hdr);
    var seqNo := if InLog(SlotOffset(Intended, s.mem.nextSeq), walBlocks) then s.mem.nextSeq else 0;
    var log'' := SomeCommitIsRepresented(walBlocks, st.file, log', seqNo);
    ReplaysSlot(LogAfterWrite(c, s, w), walBlocks, log'', off);
  }

  /** A write whose extent is not clear of the log, acknowledged, is freed by the recovery after the next crash. */
  lemma LossRun(c: Config, s: State, block: Block, start: nat, i: nat) returns (run: seq<State>)
    requires c.placement.Intended? && Inv(c, s) && Ready(c, s, block, start)
    requires start <= i < start + Size(block) && RolledBack(c, ReplayFrom(s.wal, c.layout.walBlocks, 0), i)
    ensures Path(c, run, LossSteps(block)) && run[0] == s
    ensures var u := run[|LossSteps(block)|];
            && WellSized(c, u) && u.mem.Up? && u.mem.phase.RecoverSaving?
            && u.live == s.live[start := block] && !BitsOf(c, u)[i]
  {
    var w := Write(block, start);
    var run1 := WriteUpToSave(c, s, block, start);
    var t := run1[4];
    var run2 := AcknowledgedThenRecovered(c, t, w);
    JoinPaths(c, run1, WriteSteps(block), run2, RecoverySteps());
    EntrySurvives(c, s, w, i);
    RollbackBit(c, BitsOf(c, t), ReplayFrom(t.wal, c.layout.walBlocks, 0), i);
    run := run1 + run2[1..];
  }

  /** Only the write itself is asked to be disciplined, and if it is, the invariant holds to the end. */
  lemma DisciplinedLosesNothing(c: Config, s: State, block: Block, run: seq<State>)
    requires Inv(c, s) && Disciplined(c, s, BeginWrite(block))
    requires Path(c, run, LossSteps(block)) && run[0] == s
    ensures !LiveBlockFreed(c, run[|LossSteps(block)|])
  {
    var steps := LossSteps(block);
    assert forall i | 0 < i < |steps| :: !steps[i].BeginWrite?;
    assert Steps(c, run, steps);
    StepsKeepInv(c, run, steps, |steps|);
    InvFreesNoLiveBlock(c, run[|steps|]);
  }

  /** The discipline of DiskMachine is exactly what is needed: an acknowledged write can lose its place to the next
    * recovery if and only if the extent it was given was not clear of the log. */
  lemma WriteIsLostExactly(c: Config, s: State, block: Block)
    requires Inv(c, s) && s.mem.Up? && s.mem.phase.Idle? && block.Fits()
    ensures CanLose(c, s, block) <==> !Disciplined(c, s, BeginWrite(block))
  {
    if Disciplined(c, s, BeginWrite(block)) {
      forall run | Path(c, run, LossSteps(block)) && run[0] == s
        ensures !LiveBlockFreed(c, run[|LossSteps(block)|])
      {
        DisciplinedLosesNothing(c, s, block, run);
      }
    } else {
      var start: nat :| FirstFit(Bits(s.mem.bitmap, c.Blocks()), Size(block), start) && !ClearOfLog(c, s, start, Size(block));
      var i: nat :| start <= i < start + Size(block) && RolledBack(c, ReplayFrom(s.wal, c.layout.walBlocks, 0), i);
      var run := LossRun(c, s, block, start, i);
      assert start in run[|LossSteps(block)|].live;
      assert LiveBlockFreed(c, run[|LossSteps(block)|]);
    }
  }

  // ---- a formatted disk, opened and recovered ----

  const RESTART: seq<Step> := [Step.Reopen, BeginRecover, FinishSave, ResetWal]

  /** After any crash the disk can be opened and recovered. */
  lemma Restart(c: Config, s: State) returns (run: seq<State>)
    requires c.Sound() && WellSized(c, s) && s.mem.Down?
    ensures Path(c, run, RESTART) && run[0] == s
    ensures var t := run[4];
            && WellSized(c, t) && t.mem.Up? && t.mem.phase.Idle? && t.live == s.live && t.leaked == s.leaked
            && BitsOf(c, t) == Rollback(c, c.DurableBits(s.dev), ReplayFrom(s.wal, c.layout.walBlocks, 0))
            && t.wal == map[] && t.mem.nextSeq == 1
  {
    var saved := s.dev[BLOCK..BLOCK + c.BitmapSize()];
    var s1 := s.(mem := Up(saved, MaxSeqFrom(s.wal, c.layout.walBlocks, 0, 0) + 1, Idle));
    var bm := PackBits(Rollback(c, c.DurableBits(s.dev), ReplayFrom(s.wal, c.layout.walBlocks, 0)), c.BitmapSize());
    var s2 := s1.(mem := s1.mem.(bitmap := bm, phase := RecoverSaving));
    var s3 := s2.(dev := Overwrite(s.dev, BLOCK, bm), mem := s2.mem.(phase := RecoverReset));
    var s4 := s3.(wal := map[], mem := s3.mem.(nextSeq := 1, phase := Idle));
    assert ReopenStep(c, s, s1);
    assert BeginRecoverStep(c, s1, s2);
    assert FinishSaveStep(c, s2, s3);
    assert ResetWalStep(c, s3, s4);
    run := [s, s1, s2, s3, s4];
  }

  lemma Formatted(c: Config) returns (s: State)
    requires c.Sound()
    ensures Init(c, s)
  {
    s := State(Zeros(c.DeviceSize()), map[], Down, map[], {});
    assert s.dev[BLOCK..BLOCK + c.BitmapSize()] == Zeros(c.BitmapSize());
    ZeroBits(c.BitmapSize(), c.Blocks());
  }

  /** Every sound disk can be formatted, opened and recovered, and then has room at block 0. */
  lemma Opened(c: Config) returns (run: seq<State>)
    requires c.Sound()
    ensures IsRun(c, run, RESTART) && Inv(c, run[4]) && run[4].mem.Up? && run[4].mem.phase.Idle?
    ensures run[4].live == map[] && run[4].wal == map[] && run[4].mem.nextSeq == 1
    ensures forall i | 0 <= i < c.Blocks() :: !BitsOf(c, run[4])[i]
  {
    var s := Formatted(c);
    run := Restart(c, s);
    InvHolds(c, run, RESTART, 4);
  }

  const BLOCK_A: Block := Block(1, 0, 0, [])
  const BLOCK_B: Block := Block(2, 0, 0, [])

  lemma SmallBlocks()
    ensures BLOCK_A.Fits() && Size(BLOCK_A) == 1 && BLOCK_B.Fits() && Size(BLOCK_B) == 1
  {
    assert PhysicalBlocks(0) == 1;
  }

  lemma AcknowledgedStepsRecoverFirst()
    ensures RecoversFirst(RESTART + LossSteps(BLOCK_A))
  {
    var steps := RESTART + LossSteps(BLOCK_A);
    assert steps == [Step.Reopen, BeginRecover, FinishSave, ResetWal,
                     BeginWrite(BLOCK_A), AppendIntent, WriteData, CommitIntent, FinishSave, Crash, Step.Reopen, BeginRecover];
  }

  lemma AcknowledgedPath(c: Config) returns (run: seq<State>)
    requires c.Sound()
    ensures Path(c, run, RESTART + LossSteps(BLOCK_A)) && Init(c, run[0])
    ensures run[9].live == map[0 := BLOCK_A] == run[12].live && run[12].mem.Up?
  {
    SmallBlocks();
    var run1 := Opened(c);
    var run2 := WriteUpToSave(c, run1[4], BLOCK_A, 0);
    var run3 := AcknowledgedThenRecovered(c, run2[4], Write(BLOCK_A, 0));
    JoinPaths(c, run2, WriteSteps(BLOCK_A), run3, RecoverySteps());
    var rest := run2 + run3[1..];
    JoinPaths(c, run1, RESTART, rest, LossSteps(BLOCK_A));
    run := run1 + rest[1..];
    assert run[9] == rest[5] == run3[1] && run[12] == rest[8] == run3[4];
  }

  /** On every sound disk there is a run from formatting with a write that is acknowledged, a crash, a reopening and the
    * beginning of a recovery; so what is said of runs and their live blocks is said of something. */
  lemma AcknowledgedRun(c: Config)
    requires c.Sound()
    ensures exists run: seq<State> ::
              && IsRun(c, run, RESTART + LossSteps(BLOCK_A))
              && run[9].live == map[0 := BLOCK_A] && run[12].mem.Up? && run[12].live == map[0 := BLOCK_A]
              && ReadFrom(run[12].dev, c.OffsetOf(0)) == ReadOk(1, 0, [])
  {
    var run := AcknowledgedPath(c);
    var steps := RESTART + LossSteps(BLOCK_A);
    AcknowledgedStepsRecoverFirst();
    RecoversFirstIsRun(c, run, steps);
    CrashSafety(c, run, steps, 9, 12, 0);
  }

  // ---- one failed data write and one crash lose an acknowledged block ----

  const FAILED_WRITE: seq<Step> := [BeginWrite(BLOCK_A), AppendIntent, FailData]

  /** The failed write's extent is free again, its entry stays in the log. */
  lemma FailedWrite(c: Config, s: State) returns (run: seq<State>)
    requires c.placement.Intended? && c.layout.walBlocks > 0 && Inv(c, s) && Ready(c, s, BLOCK_A, 0)
    requires s.wal == map[] && s.mem.nextSeq == 1
    ensures Path(c, run, FAILED_WRITE) && run[0] == s
    ensures var t := run[3];
            && WellSized(c, t) && t.mem.Up? && t.mem.phase.Idle? && t.live == s.live
            && t.wal == map[0 := Intent(c, Write(BLOCK_A, 0))] && t.mem.nextSeq == 2
            && BitsOf(c, t) == BitsOf(c, s)
  {
    SmallBlocks();
    var w := Write(BLOCK_A, 0);
    var bm := PackBits(WithRange(BitsOf(c, s), 0, 1, true), c.BitmapSize());
    var s1 := s.(mem := s.mem.(bitmap := bm, phase := Allocated(w)));
    var s2 := s1.(wal := map[0 := Intent(c, w)], mem := s1.mem.(nextSeq := 2, phase := Logged(w, 1)));
    var s3 := s2.(mem := s2.mem.(bitmap := s.mem.bitmap, phase := Idle));
    assert BeginWriteStep(c, s, s1, BLOCK_A);
    assert AppendIntentStep(c, s1, s2);
    assert WithRange(BitsOf(c, s1), 0, 1, false) == BitsOf(c, s);
    assert FailDataStep(c, s2, s3);
    run := [s, s1, s2, s3];
  }

  lemma FailedWriteKeepsInv(c: Config, run: seq<State>)
    requires Path(c, run, FAILED_WRITE) && Inv(c, run[0]) && run[0].wal == map[]
    ensures Inv(c, run[3])
  {
    CommittedLogIsDisciplined(c, run[0], BeginWrite(BLOCK_A));
    BeginWriteKeeps(c, run[0], run[1], BLOCK_A);
    AppendIntentKeeps(c, run[1], run[2]);
    FailDataKeeps(c, run[2], run[3]);
  }

  function OverwriteSteps(): (steps: seq<Step>)
    ensures |steps| == 6
  {
    [FinishSave, ResetWal] + WriteSteps(BLOCK_B)
  }

  /** A live block 0 on a free physical block is overwritten by the next write. */
  lemma OverwriteRun(c: Config, s: State) returns (run: seq<State>)
    requires c.Sound() && WellSized(c, s) && s.mem.Up? && s.mem.phase.RecoverSaving? && !BitsOf(c, s)[0]
    ensures Path(c, run, OverwriteSteps()) && run[0] == s
    ensures run[6].live == s.live && ReadFrom(run[6].dev, c.OffsetOf(0)) == ReadOk(2, 0, [])
  {
    var run1 := RecoveryEnds(c, s);
    SmallBlocks();
    var run2 := WriteUpToSave(c, run1[2], BLOCK_B, 0);
    JoinPaths(c, run1, [FinishSave, ResetWal], run2, WriteSteps(BLOCK_B));
    WrittenReadsBack(c, run1[2], Write(BLOCK_B, 0), run2[4]);
    run := run1 + run2[1..];
  }

  lemma RecoveryEnds(c: Config, s: State) returns (run: seq<State>)
    requires c.Sound() && WellSized(c, s) && s.mem.Up? && s.mem.phase.RecoverSaving?
    ensures Path(c, run, [FinishSave, ResetWal]) && run[0] == s
    ensures WellSized(c, run[2]) && run[2] == s.(dev := run[2].dev, wal := map[], mem := s.mem.(nextSeq := 1, phase := Idle))
  {
    var s1 := s.(dev := Overwrite(s.dev, BLOCK, s.mem.bitmap), mem := s.mem.(phase := RecoverReset));
    var s2 := s1.(wal := map[], mem := s1.mem.(nextSeq := 1, phase := Idle));
    assert FinishSaveStep(c, s, s1) && ResetWalStep(c, s1, s2);
    run := [s, s1, s2];
  }

  lemma WrittenReadsBack(c: Config, s: State, w: Write, t: State)
    requires Written(c, s, w, t)
    ensures ReadFrom(t.dev, c.OffsetOf(w.start)) == ReadOk(w.block.id, w.block.crc, w.block.data)
  {
    ReadsBackImage(t.dev, c.OffsetOf(w.start), w.block);
  }

  function DataLossSteps(): seq<Step> {
    RESTART + FAILED_WRITE + LossSteps(BLOCK_A) + OverwriteSteps()
  }

  /** On every disk whose log replays: formatted, opened and recovered; one write fails, the next is acknowledged; after
    * one crash its recovery frees the block, and a third write overwrites it. */
  lemma FailedWriteLosesBlock(c: Config)
    requires c.Sound() && c.placement.Intended? && c.layout.walBlocks > 0
    ensures exists run: seq<State> ::
              && Path(c, run, DataLossSteps()) && Init(c, run[0])
              && var t := run[|DataLossSteps()|];
              t.live == map[0 := BLOCK_A] && ReadFrom(t.dev, c.OffsetOf(0)) == ReadOk(2, 0, [])
  {
    var run1 := FailedWriteRun(c);
    var run2 := LossAndOverwrite(c, run1[7]);
    JoinPaths(c, run1, RESTART + FAILED_WRITE, run2, LossSteps(BLOCK_A) + OverwriteSteps());
    assert DataLossSteps() == RESTART + FAILED_WRITE + (LossSteps(BLOCK_A) + OverwriteSteps());
    assert (run1 + run2[1..])[0] == run1[0];
  }

  lemma LossOfFirst(c: Config, s: State) returns (run: seq<State>)
    requires c.placement.Intended? && c.layout.walBlocks > 0 && Inv(c, s) && Ready(c, s, BLOCK_A, 0)
    requires s.live == map[] && s.wal == map[0 := Intent(c, Write(BLOCK_A, 0))]
    ensures Path(c, run, LossSteps(BLOCK_A)) && run[0] == s
    ensures var u := run[8];
            && WellSized(c, u) && u.mem.Up? && u.mem.phase.RecoverSaving? && u.live == map[0 := BLOCK_A] && !BitsOf(c, u)[0]
  {
    SmallBlocks();
    FirstEntryFrees(c, s);
    run := LossRun(c, s, BLOCK_A, 0, 0);
  }

  lemma LossAndOverwrite(c: Config, s: State) returns (run: seq<State>)
    requires c.placement.Intended? && c.layout.walBlocks > 0 && Inv(c, s) && Ready(c, s, BLOCK_A, 0)
    requires s.live == map[] && s.wal == map[0 := Intent(c, Write(BLOCK_A, 0))]
    ensures Path(c, run, LossSteps(BLOCK_A) + OverwriteSteps()) && run[0] == s
    ensures run[14].live == map[0 := BLOCK_A] && ReadFrom(run[14].dev, c.OffsetOf(0)) == ReadOk(2, 0, [])
  {
    var run1 := LossOfFirst(c, s);
    var run2 := OverwriteRun(c, run1[8]);
    JoinPaths(c, run1, LossSteps(BLOCK_A), run2, OverwriteSteps());
    run := run1 + run2[1..];
  }

  lemma FailedWriteRun(c: Config) returns (run: seq<State>)
    requires c.Sound() && c.placement.Intended? && c.layout.walBlocks > 0
    ensures Path(c, run, RESTART + FAILED_WRITE) && Init(c, run[0])
    ensures Inv(c, run[7]) && Ready(c, run[7], BLOCK_A, 0)
    ensures run[7].live == map[] && run[7].wal == map[0 := Intent(c, Write(BLOCK_A, 0))]
  {
    SmallBlocks();
    var run1 := Opened(c);
    var run2 := FailedWrite(c, run1[4]);
    FailedWriteKeepsInv(c, run2);
    JoinPaths(c, run1, RESTART, run2, FAILED_WRITE);
    run := run1 + run2[1..];
  }

  lemma FirstEntryFrees(c: Config, s: State)
    requires c.Sound() && c.layout.walBlocks > 0 && s.wal == map[0 := Intent(c, Write(BLOCK_A, 0))]
    ensures RolledBack(c, ReplayFrom(s.wal, c.layout.walBlocks, 0), 0)
  {
    SmallBlocks();
    var e := EntryAt(0, s.wal[0]);
    assert ReplayFrom(s.wal, c.layout.walBlocks, 0)[0] == e;
    IntentFreesExtent(c, Write(BLOCK_A, 0), 0);
    assert Frees(c, e, 0);
  }

  // ---- a bitmap save the device rejects ----

  /** SaveBitmap fails part-way, and WriteBlock, which does not look at its status, acknowledges the write. */
  ghost predicate UnsavedAckStep(c: Config, s: State, s': State) {
    && s.mem.Up? && s.mem.phase.WriteSaving?
    && Torn(s.dev, BLOCK, s.mem.bitmap, s'.dev)
    && s' == s.(dev := s'.dev, mem := s.mem.(phase := Idle), live := s.live[s.mem.phase.w.start := s.mem.phase.w.block])
  }

  /** Every bit of the extent of `w` is set on the device. */
  ghost predicate MarkedOnDevice(c: Config, dev: seq<byte>, w: Write)
    requires |dev| == c.DeviceSize() && c.layout.dataBlocks <= 8 * c.BitmapSize()
  {
    forall i: nat | w.start <= i < w.start + Size(w.block) && i < c.Blocks() :: c.DurableBits(dev)[i]
  }

  lemma UnsavedKeepsLog(c: Config, s: State, s1: State, s2: State)
    requires LogInv(c, s) && UnsavedAckStep(c, s, s1) && CrashStep(c, s1, s2) && s.mem.phase.w.start !in s.live
    ensures LogInv(c, s2)
  {
    if c.placement.Intended? {
      forall i: nat | !Marked(s, i) && Quiet(s, i)
        ensures !Marked(s2, i)
      {
        CoveredAdd(s.live, s.mem.phase.w, i);
      }
      SlotsStay(c, s, s2);
    }
    LogStays(c, s, s2);
  }

  /** After the torn save but before the acknowledgement the invariant still holds. */
  lemma UnsavedKeepsLive(c: Config, s: State, s1: State)
    requires Inv(c, s) && UnsavedAckStep(c, s, s1)
    ensures Inv(c, s.(dev := s1.dev)) && s.mem.phase.w.start !in s.live
    ensures WellSized(c, s1) && LiveInv(c, s1.dev, s1.live)
  {
    var t := s.(dev := s1.dev);
    TearSaveKeeps(c, s, t);
    AddLive(c, t.dev, t.live, s.mem.phase.w);
  }

  lemma SavedEnoughBits(c: Config, s: State, s1: State, s2: State)
    requires WellSized(c, s) && UnsavedAckStep(c, s, s1) && CrashStep(c, s1, s2) && WellSized(c, s1)
    requires BitsInv(c, s.(dev := s1.dev)) && s.mem.phase.w.start !in s.live
    requires MarkedOnDevice(c, s1.dev, s.mem.phase.w)
    ensures BitsInv(c, s2)
  {
    forall i: nat | i < c.Blocks()
      ensures BlockOk(c, s2, i)
    {
      assert BlockOk(c, s.(dev := s1.dev), i);
      CoveredAdd(s.live, s.mem.phase.w, i);
    }
  }

  lemma SavedEnough(c: Config, s: State, s1: State, s2: State)
    requires Inv(c, s) && UnsavedAckStep(c, s, s1) && CrashStep(c, s1, s2)
    requires |s1.dev| == c.DeviceSize() && MarkedOnDevice(c, s1.dev, s.mem.phase.w)
    ensures Inv(c, s2)
  {
    UnsavedKeepsLive(c, s, s1);
    SavedEnoughBits(c, s, s1, s2);
    UnsavedKeepsLog(c, s, s1, s2);
  }

  lemma NotSavedFreesBlock(c: Config, s: State, s1: State, s2: State, s3: State)
    requires WellSized(c, s1) && UnsavedAckStep(c, s, s1) && CrashStep(c, s1, s2) && ReopenStep(c, s2, s3)
    requires !MarkedOnDevice(c, s1.dev, s.mem.phase.w)
    ensures LiveBlockFreed(c, s3)
  {
    var w := s.mem.phase.w;
    var i: nat :| w.start <= i < w.start + Size(w.block) && i < c.Blocks() && !c.DurableBits(s1.dev)[i];
    assert w.start in s3.live && !BitsOf(c, s3)[i];
  }

  /** Such a write outlives a crash right after it exactly if the rejected save put every bit of its extent on the device;
    * otherwise it is acknowledged and lies on free blocks, with either placement. */
  lemma UnsavedWriteSurvivesExactly(c: Config, s: State, s1: State, s2: State, s3: State)
    requires Inv(c, s) && UnsavedAckStep(c, s, s1) && CrashStep(c, s1, s2) && ReopenStep(c, s2, s3)
    ensures WellSized(c, s1)
    ensures Inv(c, s3) <==> MarkedOnDevice(c, s1.dev, s.mem.phase.w)
    ensures LiveBlockFreed(c, s3) <==> !MarkedOnDevice(c, s1.dev, s.mem.phase.w)
  {
    if MarkedOnDevice(c, s1.dev, s.mem.phase.w) {
      SavedEnough(c, s, s1, s2);
      ReopenKeeps(c, s2, s3);
    } else {
      NotSavedFreesBlock(c, s, s1, s2, s3);
    }
    if Inv(c, s3) {
      InvFreesNoLiveBlock(c, s3);
    }
  }

  // ---- leaks ----

  function LeakSteps(block: Block): seq<Step> {
    WriteSteps(block) + [TearSave, Crash]
  }

  /** A crash when the bitmap save of a write is complete but not yet acknowledged leaks exactly the extent. */
  lemma InterruptedSaveLeaks(c: Config, s: State, block: Block, start: nat) returns (run: seq<State>)
    requires Ready(c, s, block, start)
    ensures Path(c, run, LeakSteps(block)) && run[0] == s
    ensures run[6].live == s.live && WellSized(c, run[6]) && run[6].mem.Down?
    ensures forall i :: i in run[6].leaked <==> i in s.leaked || start <= i < start + Size(block)
  {
    var run1 := WriteUpToSave(c, s, block, start);
    var t := run1[4];
    var t1 := t.(dev := Overwrite(t.dev, BLOCK, t.mem.bitmap));
    OverwriteIsTorn(t.dev, BLOCK, t.mem.bitmap);
    var t2 := t1.(mem := Down, leaked := t1.leaked + Left(c, t1));
    assert TearSaveStep(c, t, t1) && CrashStep(c, t1, t2);
    assert c.DurableBits(t1.dev) == BitsOf(c, t);
    JoinPaths(c, run1, WriteSteps(block), [t, t1, t2], [TearSave, Crash]);
    run := run1 + [t, t1, t2][1..];
  }

  function LeakingSteps(): seq<Step> {
    RESTART + LeakSteps(BLOCK_A) + RESTART
  }

  lemma LeakingStepsRecoverFirst()
    ensures |LeakingSteps()| == 14 && RecoversFirst(LeakingSteps())
  {
    assert LeakingSteps() == [Step.Reopen, BeginRecover, FinishSave, ResetWal,
                              BeginWrite(BLOCK_A), AppendIntent, WriteData, CommitIntent, TearSave, Crash,
                              Step.Reopen, BeginRecover, FinishSave, ResetWal];
  }

  lemma LeakingPath(c: Config) returns (run: seq<State>)
    requires c.Sound()
    ensures Path(c, run, LeakingSteps()) && |run| == 15 && Init(c, run[0])
    ensures 0 in run[10].leaked && run[14].live == map[] && run[14].mem.Up? && run[14].mem.phase.Idle?
  {
    SmallBlocks();
    var run1 := Opened(c);
    var run2 := InterruptedSaveLeaks(c, run1[4], BLOCK_A, 0);
    var run3 := Restart(c, run2[6]);
    JoinPaths(c, run1, RESTART, run2, LeakSteps(BLOCK_A));
    JoinPaths(c, run1 + run2[1..], RESTART + LeakSteps(BLOCK_A), run3, RESTART);
    run := run1 + run2[1..] + run3[1..];
    assert run[10] == run2[6];
  }

  /** On every disk and for both placements: one crash leaks a block that the recovery after it leaves allocated. */
  lemma LeakingRun(c: Config)
    requires c.Sound()
    ensures exists run: seq<State> ::
              && IsRun(c, run, LeakingSteps())
              && var t := run[|LeakingSteps()|];
              t.live == map[] && t.mem.Up? && t.mem.phase.Idle? && WellSized(c, t) && BitsOf(c, t)[0]
  {
    LeakingStepsRecoverFirst();
    var run := LeakingPath(c);
    RecoversFirstIsRun(c, run, LeakingSteps());
    LeakedForever(c, run, LeakingSteps(), 10, 14, 0);
  }
}
