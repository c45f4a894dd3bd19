/** src/data/wal_manager.cpp: the write-ahead log of one disk.
  *
  * The file is a map from byte offsets to entry headers; an offset outside the map holds no
  * header with the WAL magic (a zeroed block, or the end of the file).
  *
  * AppendEntry and CommitEntry put entry `seq` at byte seq*4096, while Open and Replay scan from
  * byte 0 and number the slot at byte b as b/4096+1. `Placement` names both readings: AsWritten is
  * the code, Intended is the mapping its scans and tests/test_wal_manager.cpp expect.
  */
module Wal {
  import opened Types

  const WAL_BLOCK_SIZE: nat := 4096
  const WAL_ENTRY_HEADER_SIZE: nat := 32

  datatype Placement = AsWritten | Intended

  datatype WalHeader = WalHeader(entrySize: nat, blockId: nat, dataOffset: nat, dataSize: nat, crc: bv32, committed: bool)

  datatype WalEntry = WalEntry(seqNo: nat, blockId: nat, dataOffset: nat, dataSize: nat, crc: bv32, committed: bool)

  type WalFile = map<nat, WalHeader>

  datatype WalState = WalState(file: WalFile, nextSeq: nat)

  function SlotOffset(p: Placement, seqNo: nat): nat
    requires seqNo > 0
  {
    match p
    case AsWritten => seqNo * WAL_BLOCK_SIZE
    case Intended => (seqNo - 1) * WAL_BLOCK_SIZE
  }

  predicate InLog(off: nat, walBlocks: nat) {
    off + WAL_ENTRY_HEADER_SIZE <= walBlocks * WAL_BLOCK_SIZE
  }

  function NewHeader(blockId: nat, dataOffset: nat, dataSize: nat, crc: bv32): WalHeader {
    WalHeader(WAL_BLOCK_SIZE, blockId, dataOffset, dataSize, crc, false)
  }

  function Appended(p: Placement, walBlocks: nat, st: WalState, hdr: WalHeader): WalState
    requires st.nextSeq > 0
  {
    var off := SlotOffset(p, st.nextSeq);
    if InLog(off, walBlocks) then WalState(st.file[off := hdr], st.nextSeq + 1) else st
  }

  /** Slot 0 has no sequence number under Intended and never holds a header under AsWritten. */
  function Committed(p: Placement, walBlocks: nat, file: WalFile, seqNo: nat): WalFile {
    if seqNo > 0 && InLog(SlotOffset(p, seqNo), walBlocks) && SlotOffset(p, seqNo) in file then
      var off := SlotOffset(p, seqNo);
      file[off := file[off].(committed := true)]
    else file
  }

  function NextOffset(off: nat, hdr: WalHeader): (next: nat)
    ensures next >= off + WAL_BLOCK_SIZE
  {
    off + if hdr.entrySize > WAL_BLOCK_SIZE then hdr.entrySize else WAL_BLOCK_SIZE
  }

  predicate Counts(hdr: WalHeader) {
    hdr.blockId > 0 && hdr.entrySize > 0
  }

  function EntryAt(off: nat, hdr: WalHeader): WalEntry {
    WalEntry(off / WAL_BLOCK_SIZE + 1, hdr.blockId, hdr.dataOffset, hdr.dataSize, hdr.crc, hdr.committed)
  }

  /** The entries a scan from `off` collects. */
  function ReplayFrom(file: WalFile, walBlocks: nat, off: nat): seq<WalEntry>
    decreases walBlocks * WAL_BLOCK_SIZE - off
  {
    if !InLog(off, walBlocks) || off !in file then []
    else (if Counts(file[off]) then [EntryAt(off, file[off])] else [])
         + ReplayFrom(file, walBlocks, NextOffset(off, file[off]))
  }

  /** The highest sequence number a scan from `off` sees, or `best`. */
  function MaxSeqFrom(file: WalFile, walBlocks: nat, off: nat, best: nat): nat
    decreases walBlocks * WAL_BLOCK_SIZE - off
  {
    if !InLog(off, walBlocks) || off !in file then best
    else MaxSeqFrom(file, walBlocks, NextOffset(off, file[off]),
                    if Counts(file[off]) then off / WAL_BLOCK_SIZE + 1 else best)
  }

  class WalManager {
    const placement: Placement
    var walBlocks: nat
    var nextSeq: nat
    var isOpen: bool
    var file: WalFile

    ghost predicate Valid()
      reads this
    {
      nextSeq > 0
    }

    ghost function State(): WalState
      reads this
    {
      WalState(file, nextSeq)
    }

    constructor (p: Placement)
      ensures Valid() && !isOpen && file == map[] && placement == p
    {
      placement := p;
      walBlocks, nextSeq, isOpen, file := 0, 1, false, map[];
    }

    method Open(blocks: nat)
      modifies this
      ensures Valid() && isOpen && walBlocks == blocks
      ensures State() == WalState(old(file), MaxSeqFrom(old(file), blocks, 0, 0) + 1)
    {
      walBlocks := blocks;
      var maxSeq: nat := 0;
      var offset: nat := 0;
      while offset + WAL_ENTRY_HEADER_SIZE <= walBlocks * WAL_BLOCK_SIZE
        invariant unchanged(`file) && walBlocks == blocks
        invariant MaxSeqFrom(file, blocks, offset, maxSeq) == MaxSeqFrom(file, blocks, 0, 0)
        decreases walBlocks * WAL_BLOCK_SIZE - offset
      {
        if offset !in file {
          break;
        }
        var hdr := file[offset];
        if hdr.blockId > 0 && hdr.entrySize > 0 {
          maxSeq := offset / WAL_BLOCK_SIZE + 1;
        }
        offset := NextOffset(offset, hdr);
      }
      nextSeq := maxSeq + 1;
      isOpen := true;
    }

    method Close()
      modifies this`isOpen
      ensures !isOpen
    {
      isOpen := false;
    }

    method AppendEntry(blockId: nat, dataOffset: nat, dataSize: nat, crc: bv32) returns (status: Status, seqNo: nat)
      requires Valid()
      modifies this`file, this`nextSeq
      ensures Valid()
      ensures !isOpen ==> status == IOError && State() == old(State())
      ensures isOpen ==> State() == Appended(placement, walBlocks, old(State()), NewHeader(blockId, dataOffset, dataSize, crc))
      ensures isOpen ==> status == if InLog(SlotOffset(placement, old(nextSeq)), walBlocks) then Ok else NoSpace
      ensures seqNo == if status == Ok then old(nextSeq) else 0
    {
      if !isOpen {
        return IOError, 0;
      }
      var fileOffset := SlotOffset(placement, nextSeq);
      if fileOffset + WAL_ENTRY_HEADER_SIZE > walBlocks * WAL_BLOCK_SIZE {
        return NoSpace, 0;
      }
      file := file[fileOffset := NewHeader(blockId, dataOffset, dataSize, crc)];
      seqNo := nextSeq;
      nextSeq := nextSeq + 1;
      status := Ok;
    }

    method CommitEntry(seqNo: nat) returns (status: Status)
      modifies this`file
      ensures file == if isOpen then Committed(placement, walBlocks, old(file), seqNo) else old(file)
      ensures status == if !isOpen then IOError
                        else if seqNo > 0 && InLog(SlotOffset(placement, seqNo), walBlocks) && SlotOffset(placement, seqNo) in old(file) then Ok
                        else NotFound
      ensures status == Ok ==> SlotOffset(placement, seqNo) in file && file[SlotOffset(placement, seqNo)].committed
    {
      if !isOpen {
        return IOError;
      }
      if seqNo == 0 {
        return NotFound;
      }
      var fileOffset := SlotOffset(placement, seqNo);
      if fileOffset + WAL_ENTRY_HEADER_SIZE > walBlocks * WAL_BLOCK_SIZE {
        return NotFound;
      }
      if fileOffset !in file {
        return NotFound;
      }
      file := file[fileOffset := file[fileOffset].(committed := true)];
      status := Ok;
    }

    method Replay() returns (status: Status, entries: seq<WalEntry>)
      ensures status == if isOpen then Ok else IOError
      ensures entries == if isOpen then ReplayFrom(file, walBlocks, 0) else []
    {
      entries := [];
      if !isOpen {
        return IOError, entries;
      }
      var offset: nat := 0;
      while offset + WAL_ENTRY_HEADER_SIZE <= walBlocks * WAL_BLOCK_SIZE
        invariant entries + ReplayFrom(file, walBlocks, offset) == ReplayFrom(file, walBlocks, 0)
        decreases walBlocks * WAL_BLOCK_SIZE - offset
      {
        if offset !in file {
          break;
        }
        var hdr := file[offset];
        if hdr.blockId > 0 && hdr.entrySize > 0 {
          entries := entries + [EntryAt(offset, hdr)];
        }
        offset := NextOffset(offset, hdr);
      }
      status := Ok;
    }

    method Reset() returns (status: Status)
      requires Valid()
      modifies this`file, this`nextSeq
      ensures Valid()
      ensures State() == if isOpen then WalState(map[], 1) else old(State())
      ensures status == if isOpen then Ok else IOError
    {
      if !isOpen {
        return IOError;
      }
      file := map[];
      nextSeq := 1;
      status := Ok;
    }
  }

  // ---- runs of the log ----

  datatype WalOp =
    | Append(blockId: nat, dataOffset: nat, dataSize: nat, crc: bv32)
    | Commit(seqNo: nat)
    | Reopen
    | Reset

  function ApplyOp(p: Placement, walBlocks: nat, st: WalState, op: WalOp): (st': WalState)
    requires st.nextSeq > 0
    ensures st'.nextSeq > 0
  {
    match op
    case Append(id, off, size, crc) => Appended(p, walBlocks, st, NewHeader(id, off, size, crc))
    case Commit(seqNo) => st.(file := Committed(p, walBlocks, st.file, seqNo))
    case Reopen => WalState(st.file, MaxSeqFrom(st.file, walBlocks, 0, 0) + 1)
    case Reset => WalState(map[], 1)
  }

  function ApplyOps(p: Placement, walBlocks: nat, ops: seq<WalOp>): (st: WalState)
    ensures st.nextSeq > 0
  {
    if ops == [] then WalState(map[], 1)
    else ApplyOp(p, walBlocks, ApplyOps(p, walBlocks, ops[..|ops| - 1]), ops[|ops| - 1])
  }

  /** Reference log: the appended entries in order, as a list. A reopened log forgets trailing entries of block 0. */
  function LogAfter(p: Placement, walBlocks: nat, ops: seq<WalOp>): seq<WalHeader> {
    if ops == [] then []
    else
      var log := LogAfter(p, walBlocks, ops[..|ops| - 1]);
      match ops[|ops| - 1]
      case Append(id, off, size, crc) =>
        if InLog(SlotOffset(p, ApplyOps(p, walBlocks, ops[..|ops| - 1]).nextSeq), walBlocks) then log + [NewHeader(id, off, size, crc)] else log
      case Commit(seqNo) =>
        if 0 < seqNo <= |log| then log[seqNo - 1 := log[seqNo - 1].(committed := true)] else log
      case Reopen => TrimZeros(log)
      case Reset => []
  }

  function TrimZeros(log: seq<WalHeader>): (r: seq<WalHeader>)
    ensures r <= log
    ensures forall i | |r| <= i < |log| :: log[i].blockId == 0
    ensures r != [] ==> r[|r| - 1].blockId > 0
  {
    if log != [] && log[|log| - 1].blockId == 0 then TrimZeros(log[..|log| - 1]) else log
  }

  /** The entries of the reference log from position `i` on that name a block, numbered by position. */
  function EntriesFrom(log: seq<WalHeader>, i: nat): seq<WalEntry>
    decreases |log| - i
  {
    if i >= |log| then []
    else (if log[i].blockId > 0 then [EntryAt(i * WAL_BLOCK_SIZE, log[i])] else []) + EntriesFrom(log, i + 1)
  }

  ghost predicate Represents(file: WalFile, walBlocks: nat, log: seq<WalHeader>) {
    && |log| <= walBlocks
    && (forall off | off in file :: off % WAL_BLOCK_SIZE == 0 && off < walBlocks * WAL_BLOCK_SIZE && file[off].entrySize == WAL_BLOCK_SIZE)
    && (forall off | off in file && off > 0 :: off - WAL_BLOCK_SIZE in file)
    && (forall i | 0 <= i < |log| :: i * WAL_BLOCK_SIZE in file && file[i * WAL_BLOCK_SIZE] == log[i])
    && (forall off | off in file && off >= |log| * WAL_BLOCK_SIZE :: file[off].blockId == 0)
  }

  lemma {:induction false} ReplayOfLog(file: WalFile, walBlocks: nat, log: seq<WalHeader>, i: nat)
    requires Represents(file, walBlocks, log)
    ensures ReplayFrom(file, walBlocks, i * WAL_BLOCK_SIZE) == EntriesFrom(log, i)
    decreases walBlocks - i
  {
    var off := i * WAL_BLOCK_SIZE;
    if i < walBlocks && off in file {
      ReplayOfLog(file, walBlocks, log, i + 1);
    }
  }

  /** Every entry of the log that names a block is among them. */
  lemma {:induction false} EntriesHave(log: seq<WalHeader>, i: nat, k: nat)
    requires i <= k < |log| && log[k].blockId > 0
    ensures EntryAt(k * WAL_BLOCK_SIZE, log[k]) in EntriesFrom(log, i)
    decreases k - i
  {
    if i < k {
      EntriesHave(log, i + 1, k);
    }
  }

  /** Replay returns every header of the file that counts. */
  lemma ReplaysSlot(file: WalFile, walBlocks: nat, log: seq<WalHeader>, off: nat)
    requires Represents(file, walBlocks, log) && off in file && Counts(file[off])
    ensures off < |log| * WAL_BLOCK_SIZE && EntryAt(off, file[off]) in ReplayFrom(file, walBlocks, 0)
  {
    var k := off / WAL_BLOCK_SIZE;
    assert off == k * WAL_BLOCK_SIZE;
    EntriesHave(log, 0, k);
    ReplayOfLog(file, walBlocks, log, 0);
  }

  /** And only those. */
  lemma {:induction false} ReplayedFromFile(file: WalFile, walBlocks: nat, from: nat, e: WalEntry) returns (off: nat)
    requires e in ReplayFrom(file, walBlocks, from)
    ensures off in file && Counts(file[off]) && e == EntryAt(off, file[off])
    decreases walBlocks * WAL_BLOCK_SIZE - from
  {
    var rest := ReplayFrom(file, walBlocks, NextOffset(from, file[from]));
    if e in rest {
      off := ReplayedFromFile(file, walBlocks, NextOffset(from, file[from]), e);
    } else {
      off := from;
    }
  }

  lemma {:induction false} MaxSeqOfLog(file: WalFile, walBlocks: nat, log: seq<WalHeader>, i: nat, best: nat)
    requires Represents(file, walBlocks, log)
    ensures MaxSeqFrom(file, walBlocks, i * WAL_BLOCK_SIZE, best) ==
            if |TrimZeros(log)| > i then |TrimZeros(log)| else best
    decreases walBlocks - i
  {
    var off := i * WAL_BLOCK_SIZE;
    if i < walBlocks && off in file {
      SlotStep(file, walBlocks, log, i);
      MaxSeqOfLog(file, walBlocks, log, i + 1, if Counts(file[off]) then i + 1 else best);
    } else {
      assert i < |log| ==> off in file;
    }
  }

  lemma SlotStep(file: WalFile, walBlocks: nat, log: seq<WalHeader>, i: nat)
    requires Represents(file, walBlocks, log) && i < walBlocks && i * WAL_BLOCK_SIZE in file
    ensures var off := i * WAL_BLOCK_SIZE;
            && InLog(off, walBlocks) && NextOffset(off, file[off]) == (i + 1) * WAL_BLOCK_SIZE && off / WAL_BLOCK_SIZE + 1 == i + 1
            && (|TrimZeros(log)| == i + 1 ==> Counts(file[off])) && (|TrimZeros(log)| <= i ==> !Counts(file[off]))
  {
  }

  lemma AppendIsRepresented(walBlocks: nat, st: WalState, log: seq<WalHeader>, hdr: WalHeader)
    requires Represents(st.file, walBlocks, log) && st.nextSeq == |log| + 1
    requires hdr.entrySize == WAL_BLOCK_SIZE
    ensures var st' := Appended(Intended, walBlocks, st, hdr);
            var log' := if |log| < walBlocks then log + [hdr] else log;
            Represents(st'.file, walBlocks, log') && st'.nextSeq == |log'| + 1
  {
    if |log| < walBlocks {
      var at := |log| * WAL_BLOCK_SIZE;
      assert |log| > 0 ==> (|log| - 1) * WAL_BLOCK_SIZE in st.file;
      FileAfterAppend(walBlocks, st.file, log, hdr);
      assert Appended(Intended, walBlocks, st, hdr).file == st.file[at := hdr];
    }
  }

  lemma FileAfterAppend(walBlocks: nat, file: WalFile, log: seq<WalHeader>, hdr: WalHeader)
    requires Represents(file, walBlocks, log) && |log| < walBlocks
    requires |log| > 0 ==> (|log| - 1) * WAL_BLOCK_SIZE in file
    requires hdr.entrySize == WAL_BLOCK_SIZE
    ensures Represents(file[|log| * WAL_BLOCK_SIZE := hdr], walBlocks, log + [hdr])
  {
  }

  lemma CommitIsRepresented(walBlocks: nat, file: WalFile, log: seq<WalHeader>, seqNo: nat)
    requires Represents(file, walBlocks, log)
    ensures var log' := if 0 < seqNo <= |log| then log[seqNo - 1 := log[seqNo - 1].(committed := true)] else log;
            Represents(Committed(Intended, walBlocks, file, seqNo), walBlocks, log')
  {
  }

  /** Committing any sequence number keeps a log represented, and as long. */
  lemma SomeCommitIsRepresented(walBlocks: nat, file: WalFile, log: seq<WalHeader>, seqNo: nat) returns (log': seq<WalHeader>)
    requires Represents(file, walBlocks, log)
    ensures Represents(Committed(Intended, walBlocks, file, seqNo), walBlocks, log') && |log'| == |log|
  {
    CommitIsRepresented(walBlocks, file, log, seqNo);
    log' := if 0 < seqNo <= |log| then log[seqNo - 1 := log[seqNo - 1].(committed := true)] else log;
  }

  lemma SomeAppendIsRepresented(walBlocks: nat, st: WalState, log: seq<WalHeader>, hdr: WalHeader) returns (log': seq<WalHeader>)
    requires Represents(st.file, walBlocks, log) && st.nextSeq == |log| + 1
    requires hdr.entrySize == WAL_BLOCK_SIZE
    ensures var st' := Appended(Intended, walBlocks, st, hdr); Represents(st'.file, walBlocks, log') && st'.nextSeq == |log'| + 1
  {
    AppendIsRepresented(walBlocks, st, log, hdr);
    log' := if |log| < walBlocks then log + [hdr] else log;
  }

  lemma SlotsInLog(walBlocks: nat, file: WalFile, log: seq<WalHeader>)
    requires Represents(file, walBlocks, log)
    ensures forall off | off in file :: InLog(off, walBlocks)
  {
    forall off | off in file
      ensures InLog(off, walBlocks)
    {
      SlotInside(off, walBlocks);
    }
  }

  lemma SlotInside(off: nat, walBlocks: nat)
    requires off % WAL_BLOCK_SIZE == 0 && off < walBlocks * WAL_BLOCK_SIZE
    ensures InLog(off, walBlocks)
  {
  }

  lemma TrimIsRepresented(walBlocks: nat, file: WalFile, log: seq<WalHeader>)
    requires Represents(file, walBlocks, log)
    ensures Represents(file, walBlocks, TrimZeros(log))
  {
    var log' := TrimZeros(log);
    forall off | off in file && off >= |log'| * WAL_BLOCK_SIZE
      ensures file[off].blockId == 0
    {
      var i := off / WAL_BLOCK_SIZE;
      if i < |log| {
        assert off == i * WAL_BLOCK_SIZE;
      }
    }
  }

  lemma {:induction false} LogIsRepresented(walBlocks: nat, ops: seq<WalOp>)
    ensures Represents(ApplyOps(Intended, walBlocks, ops).file, walBlocks, LogAfter(Intended, walBlocks, ops))
    ensures ApplyOps(Intended, walBlocks, ops).nextSeq == |LogAfter(Intended, walBlocks, ops)| + 1
  {
    if ops != [] {
      var prefix := ops[..|ops| - 1];
      LogIsRepresented(walBlocks, prefix);
      var st, log := ApplyOps(Intended, walBlocks, prefix), LogAfter(Intended, walBlocks, prefix);
      match ops[|ops| - 1] {
        case Append(id, off, size, crc) => AppendIsRepresented(walBlocks, st, log, NewHeader(id, off, size, crc));
        case Commit(seqNo) => CommitIsRepresented(walBlocks, st.file, log, seqNo);
        case Reopen =>
          MaxSeqOfLog(st.file, walBlocks, log, 0, 0);
          TrimIsRepresented(walBlocks, st.file, log);
        case Reset =>
      }
    }
  }

  /** Under the intended placement Replay returns exactly the entries appended since the last Reset, in order,
    * committed exactly when committed, through any number of reopenings. */
  lemma {:induction false} ReplayReturnsTheLog(walBlocks: nat, ops: seq<WalOp>)
    ensures ReplayFrom(ApplyOps(Intended, walBlocks, ops).file, walBlocks, 0) == EntriesFrom(LogAfter(Intended, walBlocks, ops), 0)
  {
    LogIsRepresented(walBlocks, ops);
    ReplayOfLog(ApplyOps(Intended, walBlocks, ops).file, walBlocks, LogAfter(Intended, walBlocks, ops), 0);
  }

  lemma {:induction false} EntriesAppend(log: seq<WalHeader>, hdr: WalHeader, i: nat)
    requires i <= |log|
    ensures EntriesFrom(log + [hdr], i) ==
            EntriesFrom(log, i) + if hdr.blockId > 0 then [EntryAt(|log| * WAL_BLOCK_SIZE, hdr)] else []
    decreases |log| - i
  {
    if i < |log| {
      EntriesAppend(log, hdr, i + 1);
      assert (log + [hdr])[i] == log[i];
    } else {
      assert (log + [hdr])[i] == hdr && EntriesFrom(log + [hdr], i + 1) == [];
    }
  }

  /** The entries with the one of that number committed. */
  function WithCommitted(entries: seq<WalEntry>, seqNo: nat): (r: seq<WalEntry>)
    ensures |r| == |entries|
    ensures forall i | 0 <= i < |r| :: r[i] == if entries[i].seqNo == seqNo then entries[i].(committed := true) else entries[i]
  {
    seq(|entries|, i requires 0 <= i < |entries| => if entries[i].seqNo == seqNo then entries[i].(committed := true) else entries[i])
  }

  lemma {:induction false} EntriesCommitted(log: seq<WalHeader>, seqNo: nat, i: nat)
    requires 0 < seqNo <= |log|
    ensures EntriesFrom(log[seqNo - 1 := log[seqNo - 1].(committed := true)], i) == WithCommitted(EntriesFrom(log, i), seqNo)
    decreases |log| - i
  {
    if i < |log| {
      EntriesCommitted(log, seqNo, i + 1);
    }
  }

  /** The numbers of entries are below the length of the log. */
  lemma {:induction false} EntryNumbers(log: seq<WalHeader>, i: nat)
    ensures forall e | e in EntriesFrom(log, i) :: i < e.seqNo <= |log|
    decreases |log| - i
  {
    if i < |log| {
      EntryNumbers(log, i + 1);
    }
  }

  lemma EntriesCommittedAny(log: seq<WalHeader>, seqNo: nat)
    ensures EntriesFrom(if 0 < seqNo <= |log| then log[seqNo - 1 := log[seqNo - 1].(committed := true)] else log, 0) ==
            WithCommitted(EntriesFrom(log, 0), seqNo)
  {
    if 0 < seqNo <= |log| {
      EntriesCommitted(log, seqNo, 0);
    } else {
      EntryNumbers(log, 0);
      var entries := EntriesFrom(log, 0);
      forall i | 0 <= i < |entries|
        ensures entries[i].seqNo != seqNo
      {
        assert entries[i] in entries;
      }
    }
  }

  lemma EntriesAppended(log: seq<WalHeader>, id: nat, off: nat, size: nat, crc: bv32)
    ensures EntriesFrom(log + [NewHeader(id, off, size, crc)], 0) ==
            EntriesFrom(log, 0) + if id > 0 then [WalEntry(|log| + 1, id, off, size, crc, false)] else []
  {
    EntriesAppend(log, NewHeader(id, off, size, crc), 0);
    assert |log| * WAL_BLOCK_SIZE / WAL_BLOCK_SIZE == |log|;
  }

  lemma ReplayOfAppended(walBlocks: nat, st: WalState, log: seq<WalHeader>, id: nat, off: nat, size: nat, crc: bv32)
    requires Represents(st.file, walBlocks, log) && st.nextSeq == |log| + 1
    ensures ReplayFrom(Appended(Intended, walBlocks, st, NewHeader(id, off, size, crc)).file, walBlocks, 0) ==
            ReplayFrom(st.file, walBlocks, 0)
            + if id > 0 && st.nextSeq <= walBlocks then [WalEntry(st.nextSeq, id, off, size, crc, false)] else []
  {
    var hdr := NewHeader(id, off, size, crc);
    var st', log' := Appended(Intended, walBlocks, st, hdr), if |log| < walBlocks then log + [hdr] else log;
    AppendIsRepresented(walBlocks, st, log, hdr);
    ReplayOfLog(st.file, walBlocks, log, 0);
    ReplayOfLog(st'.file, walBlocks, log', 0);
    EntriesAppended(log, id, off, size, crc);
  }

  lemma ReplayOfCommitted(walBlocks: nat, file: WalFile, log: seq<WalHeader>, seqNo: nat)
    requires Represents(file, walBlocks, log)
    ensures ReplayFrom(Committed(Intended, walBlocks, file, seqNo), walBlocks, 0) == WithCommitted(ReplayFrom(file, walBlocks, 0), seqNo)
  {
    CommitIsRepresented(walBlocks, file, log, seqNo);
    var log' := if 0 < seqNo <= |log| then log[seqNo - 1 := log[seqNo - 1].(committed := true)] else log;
    ReplayOfLog(file, walBlocks, log, 0);
    ReplayOfLog(Committed(Intended, walBlocks, file, seqNo), walBlocks, log', 0);
    EntriesCommittedAny(log, seqNo);
  }

  /** What Replay returns after these operations, under the intended placement. */
  function Replayed(walBlocks: nat, ops: seq<WalOp>): seq<WalEntry> {
    ReplayFrom(ApplyOps(Intended, walBlocks, ops).file, walBlocks, 0)
  }

  /** An append adds its entry, under the next number and not committed, while there is room. */
  lemma ReplayAfterAppend(walBlocks: nat, ops: seq<WalOp>, id: nat, off: nat, size: nat, crc: bv32)
    ensures var n := ApplyOps(Intended, walBlocks, ops).nextSeq;
            Replayed(walBlocks, ops + [Append(id, off, size, crc)]) ==
            Replayed(walBlocks, ops) + if id > 0 && n <= walBlocks then [WalEntry(n, id, off, size, crc, false)] else []
  {
    assert (ops + [Append(id, off, size, crc)])[..|ops|] == ops;
    LogIsRepresented(walBlocks, ops);
    ReplayOfAppended(walBlocks, ApplyOps(Intended, walBlocks, ops), LogAfter(Intended, walBlocks, ops), id, off, size, crc);
  }

  /** A commit marks the entry of its number and no other. */
  lemma ReplayAfterCommit(walBlocks: nat, ops: seq<WalOp>, seqNo: nat)
    ensures Replayed(walBlocks, ops + [Commit(seqNo)]) == WithCommitted(Replayed(walBlocks, ops), seqNo)
  {
    assert (ops + [Commit(seqNo)])[..|ops|] == ops;
    LogIsRepresented(walBlocks, ops);
    ReplayOfCommitted(walBlocks, ApplyOps(Intended, walBlocks, ops).file, LogAfter(Intended, walBlocks, ops), seqNo);
  }

  /** Reopening changes nothing, a reset empties the log. */
  lemma ReplayAfterReopenOrReset(walBlocks: nat, ops: seq<WalOp>)
    ensures Replayed(walBlocks, ops + [Reopen]) == Replayed(walBlocks, ops) && Replayed(walBlocks, ops + [Reset]) == []
  {
    assert (ops + [Reopen])[..|ops|] == ops && (ops + [Reset])[..|ops|] == ops;
  }

  /** As written, a log that is opened again starts over at number 1. */
  lemma ReopenAsWritten(walBlocks: nat, ops: seq<WalOp>)
    ensures ApplyOps(AsWritten, walBlocks, ops + [Reopen]).nextSeq == 1
  {
    var all := ops + [Reopen];
    assert all[..|all| - 1] == ops && all[|all| - 1] == Reopen;
    SlotZeroStaysEmpty(walBlocks, ops);
  }

  /** How many entries a log has room for: all its blocks, or one less as written. */
  lemma TakesExactly(p: Placement, walBlocks: nat, seqNo: nat)
    requires seqNo > 0
    ensures InLog(SlotOffset(p, seqNo), walBlocks) <==> seqNo <= walBlocks - if p.AsWritten? then 1 else 0
  {
  }

  /** What the one file has at `off`, the other has one block further on. */
  ghost predicate SameSlot(file: WalFile, file': WalFile, off: nat) {
    && (off in file <==> off + WAL_BLOCK_SIZE in file')
    && (off in file ==> file'[off + WAL_BLOCK_SIZE] == file[off])
  }

  /** Every entry one block further on, and nothing in the first block. */
  ghost predicate Shifted(file: WalFile, file': WalFile) {
    && (forall off {:trigger SameSlot(file, file', off)} :: SameSlot(file, file', off))
    && (forall off | off in file' :: off >= WAL_BLOCK_SIZE)
  }

  /** As written, the log is the intended one a block further on, until it is opened again. */
  lemma {:induction false} AsWrittenIsShifted(walBlocks: nat, ops: seq<WalOp>)
    requires forall op | op in ops :: !op.Reopen?
    ensures var st, st' := ApplyOps(Intended, walBlocks, ops), ApplyOps(AsWritten, walBlocks + 1, ops);
            st'.nextSeq == st.nextSeq && Shifted(st.file, st'.file)
    decreases |ops|
  {
    if ops != [] {
      var front, op := ops[..|ops| - 1], ops[|ops| - 1];
      assert op in ops && forall o | o in front :: o in ops;
      AsWrittenIsShifted(walBlocks, front);
      var st, st' := ApplyOps(Intended, walBlocks, front), ApplyOps(AsWritten, walBlocks + 1, front);
      match op {
        case Append(id, off, size, crc) => AppendShifted(walBlocks, st, st', NewHeader(id, off, size, crc));
        case Commit(seqNo) => CommitShifted(walBlocks, st.file, st'.file, seqNo);
        case Reset =>
      }
    }
  }

  lemma AppendShifted(walBlocks: nat, st: WalState, st': WalState, hdr: WalHeader)
    requires st.nextSeq == st'.nextSeq > 0 && Shifted(st.file, st'.file)
    ensures var a, b := Appended(Intended, walBlocks, st, hdr), Appended(AsWritten, walBlocks + 1, st', hdr);
            a.nextSeq == b.nextSeq && Shifted(a.file, b.file)
  {
    SlotIsNext(walBlocks, st.nextSeq);
    UpdateShifted(st.file, st'.file, SlotOffset(Intended, st.nextSeq), hdr);
  }

  lemma UpdateShifted(file: WalFile, file': WalFile, off: nat, hdr: WalHeader)
    requires Shifted(file, file')
    ensures Shifted(file[off := hdr], file'[off + WAL_BLOCK_SIZE := hdr])
  {
    var with, with' := file[off := hdr], file'[off + WAL_BLOCK_SIZE := hdr];
    forall o: nat
      ensures SameSlot(with, with', o)
    {
      assert SameSlot(file, file', o);
    }
  }

  lemma CommitShifted(walBlocks: nat, file: WalFile, file': WalFile, seqNo: nat)
    requires Shifted(file, file')
    ensures Shifted(Committed(Intended, walBlocks, file, seqNo), Committed(AsWritten, walBlocks + 1, file', seqNo))
  {
    if seqNo > 0 {
      var off := SlotOffset(Intended, seqNo);
      SlotIsNext(walBlocks, seqNo);
      assert SameSlot(file, file', off);
      if InLog(off, walBlocks) && off in file {
        UpdateShifted(file, file', off, file[off].(committed := true));
      }
    }
  }

  lemma SlotIsNext(walBlocks: nat, seqNo: nat)
    requires seqNo > 0
    ensures SlotOffset(AsWritten, seqNo) == SlotOffset(Intended, seqNo) + WAL_BLOCK_SIZE
    ensures InLog(SlotOffset(AsWritten, seqNo), walBlocks + 1) <==> InLog(SlotOffset(Intended, seqNo), walBlocks)
  {
  }

  lemma {:induction false} SlotZeroStaysEmpty(walBlocks: nat, ops: seq<WalOp>)
    ensures 0 !in ApplyOps(AsWritten, walBlocks, ops).file
  {
    if ops != [] {
      SlotZeroStaysEmpty(walBlocks, ops[..|ops| - 1]);
    }
  }

  /** As written, Replay never returns anything; so it returns the log exactly when the log names no block. */
  lemma ReplayAsWritten(walBlocks: nat, ops: seq<WalOp>)
    ensures ReplayFrom(ApplyOps(AsWritten, walBlocks, ops).file, walBlocks, 0) == []
    ensures ReplayFrom(ApplyOps(AsWritten, walBlocks, ops).file, walBlocks, 0) == EntriesFrom(LogAfter(AsWritten, walBlocks, ops), 0)
       <==> forall h | h in LogAfter(AsWritten, walBlocks, ops) :: h.blockId == 0
  {
    SlotZeroStaysEmpty(walBlocks, ops);
    EntriesEmpty(LogAfter(AsWritten, walBlocks, ops), 0);
  }

  lemma {:induction false} EntriesEmpty(log: seq<WalHeader>, i: nat)
    requires i <= |log|
    ensures EntriesFrom(log, i) == [] <==> forall h | h in log[i..] :: h.blockId == 0
    decreases |log| - i
  {
    if i < |log| {
      EntriesEmpty(log, i + 1);
      assert log[i..] == [log[i]] + log[i + 1..];
    }
  }

  /** The calls in tests/test_wal_manager.cpp:61-91, where two entries are expected: as written, none comes back. */
  lemma ReplayAfterReopenAsWritten()
    ensures var ops := [Append(100, 4096, 1024, 0xDEADBEEF), Commit(1), Append(200, 8192, 2048, 0xCAFEBABE), Reopen];
            && ReplayFrom(ApplyOps(AsWritten, 64, ops).file, 64, 0) == []
            && EntriesFrom(LogAfter(AsWritten, 64, ops), 0) != []
  {
    var ops := [Append(100, 4096, 1024, 0xDEADBEEF), Commit(1), Append(200, 8192, 2048, 0xCAFEBABE), Reopen];
    ReplayAsWritten(64, ops);
    assert ops[..3][..2] == ops[..2] && ops[..2][..1] == ops[..1] && ops[..1][..0] == [];
    assert ApplyOps(AsWritten, 64, ops[..1]).nextSeq == 2;
    assert ApplyOps(AsWritten, 64, ops[..2]).nextSeq == 2;
    var h1 := NewHeader(100, 4096, 1024, 0xDEADBEEF);
    assert LogAfter(AsWritten, 64, ops[..1]) == [h1];
    assert LogAfter(AsWritten, 64, ops[..2]) == [h1.(committed := true)];
    var log := LogAfter(AsWritten, 64, ops[..3]);
    assert log == [h1.(committed := true)] + [NewHeader(200, 8192, 2048, 0xCAFEBABE)];
    assert LogAfter(AsWritten, 64, ops) == log;
    assert log[0].blockId == 100;
  }
}
