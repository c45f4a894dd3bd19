/** src/client/openfs_client.cpp over src/meta/meta_service_impl.cpp and src/data/data_service_impl.cpp, calls made directly. */
module Client {
  import opened Bytes
  import opened Types
  import opened Namespace
  import opened NamespaceEffects
  import opened BlockRecord
  import opened BlockSplitter
  import opened FileStore
  import opened FileMoves
  import opened Checksum
  import Crc32
  import NM = NamespaceManager
  import NR = NamespaceRename
  import BM = BlockMap
  import DM = DiskManager
  import DN = DataNode

  /** src/data/data_service_impl.cpp. */
  class DataService {
    const node: DN.DataNode

    constructor (node: DN.DataNode)
      ensures this.node == node
    {
      this.node := node;
    }

    /** WriteBlock, src/data/data_service_impl.cpp:11-42: the data must match the caller's checksum. */
    method WriteBlock(id: nat, data: seq<byte>, crc: bv32, accepted: nat) returns (status: Status, place: DN.Place)
      requires node.Valid() && BlockFor(id, data).Fits()
      modifies node, node.pool`states, node.pool.footprint
      ensures node.Valid() && |node.pool.states| == |old(node.pool.states)|
      ensures status == Ok ==>
                && place !in old(node.shelf) && node.shelf == old(node.shelf)[place := BlockFor(id, data)]
                && place.diskId < |node.pool.states|
      ensures status != Ok ==> node.shelf == old(node.shelf)
      ensures crc == Sum(data) ==> DN.Answers(node.pool.configs, old(node.pool.states), BlockFor(id, data), accepted, status)
      ensures crc == Sum(data) && status != Ok ==> DN.Answers(node.pool.configs, node.pool.states, BlockFor(id, data), accepted, status)
      ensures crc != Sum(data) ==> status == CRCMismatch
    {
      place := DN.Place(0, 0);
      var calculated := ComputeSum(data);
      if calculated != crc {
        return CRCMismatch, place;
      }
      var level := SelectBlockLevel(|data|);
      status, place := node.WriteBlock(Block(id, LevelByte(level), crc, data), accepted);
    }

    /** ReadBlock, src/data/data_service_impl.cpp:44-67. */
    method ReadBlock(segmentId: nat, offset: nat) returns (status: Status, data: seq<byte>, crc: bv32)
      requires node.Valid()
      ensures var place := DN.Place(segmentId % TWO_32, offset);
              place in node.shelf ==> status == Ok && data == node.shelf[place].data && crc == node.shelf[place].crc
      ensures segmentId % TWO_32 >= |node.pool.states| ==> status == NotFound
      ensures segmentId % TWO_32 < |node.pool.states| ==>
                match ReadFrom(node.pool.states[segmentId % TWO_32].dev, offset)
                case ReadOk(_, c, d) => status == Ok && data == d && crc == c
                case ReadFailed(bad) => status == if bad then Internal else IOError
      ensures status != Ok ==> data == [] && crc == 0
    {
      data, crc := [], 0;
      var r;
      status, r := node.ReadBlock(DN.Place(segmentId % TWO_32, offset));
      if status == Ok {
        data, crc := r.data, r.crc;
      }
    }
  }

  /** src/meta/meta_service_impl.cpp. */
  class MetaService {
    const inodeTable: NM.InodeTable
    const namespaceMgr: NM.NamespaceManager
    const blockMap: BM.BlockMap
    const blockAllocator: BM.BlockAllocator

    constructor (now: nat)
      ensures fresh(inodeTable) && fresh(namespaceMgr) && fresh(blockMap) && fresh(blockAllocator)
      ensures namespaceMgr.inodeTable == inodeTable && namespaceMgr.Abs() == NM.InitialTree(now)
      ensures blockMap.inodeBlocks == map[] && blockMap.blockMetas == map[] && blockAllocator.nextBlockId == 1
    {
      var table := new NM.InodeTable(now);
      inodeTable := table;
      namespaceMgr := new NM.NamespaceManager(table);
      blockMap := new BM.BlockMap();
      blockAllocator := new BM.BlockAllocator();
    }

    /** CommitBlocks, src/meta/meta_service_impl.cpp:260-306: the block list, then the inode's size. */
    method CommitBlocks(inodeId: nat, blocks: seq<BM.BlockMeta>, mtime: nat, ctime: nat) returns (status: Status)
      requires namespaceMgr.inodeTable == inodeTable
      requires inodeId in inodeTable.inodes ==> inodeTable.inodes[inodeId].id == inodeId
      modifies blockMap, inodeTable
      ensures status == Ok
      ensures namespaceMgr.Abs() == Touched(old(namespaceMgr.Abs()), inodeId, TotalSize(blocks), mtime, ctime)
      ensures var before := if inodeId in old(blockMap.inodeBlocks) then old(blockMap.inodeBlocks)[inodeId] else [];
              blockMap.inodeBlocks == old(blockMap.inodeBlocks)[inodeId := before + BM.Ids(blocks)]
      ensures blockMap.blockMetas == BM.WithMetas(old(blockMap.blockMetas), blocks)
    {
      status := blockMap.AddBlocks(inodeId, blocks);
      var r := inodeTable.Get(inodeId);
      if r.Found? {
        var totalSize := 0;
        for i := 0 to |blocks|
          invariant totalSize == TotalSize(blocks[..i])
        {
          assert blocks[..i + 1][..i] == blocks[..i];
          totalSize := totalSize + blocks[i].size;
        }
        assert blocks[..|blocks|] == blocks;
        var updated := inodeTable.Update(r.inode.(size := totalSize, mtime := mtime, ctime := ctime));
      }
    }
  }

  class OpenFSClient {
    const meta: MetaService
    const data: DataService
    var initialized: bool

    ghost function World(): FileStore.World
      reads meta.namespaceMgr, meta.namespaceMgr.inodeTable, meta.blockMap, data.node
    {
      FileStore.World(meta.namespaceMgr.Abs(), meta.blockMap.inodeBlocks, meta.blockMap.blockMetas, data.node.shelf)
    }

    /** The data node is in order, and apart in memory from the metadata. */
    ghost predicate NodeOk()
      reads this, data.node, data.node.pool, data.node.pool.footprint
    {
      && data.node.Valid() && |data.node.pool.states| <= TWO_32
      && this !in data.node.pool.footprint
      && meta.inodeTable !in data.node.pool.footprint && meta.namespaceMgr !in data.node.pool.footprint
      && meta.blockMap !in data.node.pool.footprint && meta.blockAllocator !in data.node.pool.footprint
      && meta.namespaceMgr.inodeTable == meta.inodeTable
    }

    ghost predicate Valid()
      reads this, meta.namespaceMgr, meta.namespaceMgr.inodeTable, meta.blockMap, meta.blockAllocator,
            data.node, data.node.pool, data.node.pool.footprint
    {
      && NodeOk()
      && IsTree(meta.namespaceMgr.Abs()) && StoreOk(World(), meta.blockAllocator.nextBlockId)
    }

    /** Init: a client of metadata just started and of a data node with nothing stored. */
    constructor (meta: MetaService, node: DN.DataNode, ghost now: nat)
      requires node.Valid() && node.shelf == map[] && |node.pool.states| <= TWO_32
      requires meta.inodeTable !in node.pool.footprint && meta.namespaceMgr !in node.pool.footprint
      requires meta.blockMap !in node.pool.footprint && meta.blockAllocator !in node.pool.footprint
      requires meta.namespaceMgr.inodeTable == meta.inodeTable && meta.namespaceMgr.Abs() == NM.InitialTree(now)
      requires meta.blockMap.inodeBlocks == map[] && meta.blockMap.blockMetas == map[] && meta.blockAllocator.nextBlockId == 1
      ensures Valid() && initialized && this.meta == meta && data.node == node
    {
      this.meta := meta;
      data := new DataService(node);
      initialized := true;
      new;
      NM.InitialIsTree(now);
    }

    /** The data node, as it is now, answers a write of these bytes with `status`. */
    ghost predicate Rejected(id: nat, bytes: seq<byte>, accepted: nat, status: Status)
      reads data.node, data.node.pool
    {
      status != Ok && DN.Answers(data.node.pool.configs, data.node.pool.states, BlockFor(id, bytes), accepted, status)
    }

    /** One round of the write loop: the slice's bytes go out under the allocated id, and the reply completes the block's metadata. */
    method StoreSlice(content: seq<byte>, slice: BlockSlice, target: BM.BlockMeta, accepted: nat)
      returns (status: Status, m: BM.BlockMeta)
      requires NodeOk() && target.id < TWO_64
      requires slice.dataSize <= MAX_DATA_SIZE && slice.fileOffset + slice.dataSize <= |content|
      requires slice.crc == Sum(content[slice.fileOffset..slice.fileOffset + slice.dataSize])
      modifies data.node, data.node.pool`states, data.node.pool.footprint
      ensures NodeOk() && KeepsAll(old(data.node.shelf), data.node.shelf)
      ensures m.id == target.id && m.size == slice.dataSize
      ensures status == Ok ==> Holds(data.node.shelf, m, content[slice.fileOffset..slice.fileOffset + slice.dataSize])
      ensures status != Ok ==> Rejected(target.id, content[slice.fileOffset..slice.fileOffset + slice.dataSize], accepted, status)
    {
      var bytes := content[slice.fileOffset..slice.fileOffset + slice.dataSize];
      var place;
      status, place := data.WriteBlock(target.id, bytes, slice.crc, accepted);
      m := target.(diskId := place.diskId, offset := place.offset, size := slice.dataSize, crc := slice.crc);
    }

    /** The write loop of WriteFile, src/client/openfs_client.cpp:66-111: slice `i` goes out under the `i`-th allocated id. */
    method StoreSlices(content: seq<byte>, blk: nat, slices: seq<BlockSlice>, targets: seq<BM.BlockMeta>, ghost first: nat, accepts: nat -> nat)
      returns (status: Status, committed: seq<BM.BlockMeta>)
      requires NodeOk()
      requires blk <= MAX_DATA_SIZE && first + |slices| <= TWO_64 && |targets| == |slices|
      requires slices == Slices(content, SelectBlockLevel(|content|), blk, |slices|)
      requires forall i | 0 <= i < |slices| :: targets[i].id == first + i
      modifies data.node, data.node.pool`states, data.node.pool.footprint
      ensures NodeOk() && KeepsAll(old(data.node.shelf), data.node.shelf)
      ensures Describe(data.node.shelf, committed, Chunks(content, blk, |committed|), first) && |committed| <= |slices|
      ensures if |committed| == |slices| then status == Ok
              else Rejected(first + |committed|, Chunk(content, blk, |committed|), accepts(|committed|), status)
    {
      committed := [];
      for i := 0 to |slices|
        invariant NodeOk()
        invariant KeepsAll(old(data.node.shelf), data.node.shelf)
        invariant Describe(data.node.shelf, committed, Chunks(content, blk, i), first)
      {
        ghost var before := data.node.shelf;
        SliceAt(content, SelectBlockLevel(|content|), blk, |slices|, i);
        SliceIsChunk(content, SelectBlockLevel(|content|), blk, i);
        var m;
        status, m := StoreSlice(content, slices[i], targets[i], accepts(i));
        if status != Ok {
          return;
        }
        DescribeNext(before, data.node.shelf, committed, content, blk, first, m);
        committed := committed + [m];
      }
      status := Ok;
    }

    /** What becomes of the bytes of a new file: `stored` slices were taken, and if that is not all of them, then the data
      * node, as it now is, rejects the next one. */
    ghost predicate TransferAnswer(content: seq<byte>, first: nat, online: bool, accepts: nat -> nat, stored: nat, status: Status)
      reads data.node, data.node.pool
    {
      var level := SelectBlockLevel(|content|);
      var n := BlockCount(|content|, level);
      if n == 0 then status == Internal
      else if !online then status == NoSpace
      else if stored == n then status == Ok
      else stored < n && Rejected(first + stored, Chunk(content, BlockLevelSize(level), stored), accepts(stored), status)
    }

    /** Steps 2 to 4 of WriteFile: split, allocate, store. */
    method Transfer(content: seq<byte>, online: bool, accepts: nat -> nat) returns (status: Status, committed: seq<BM.BlockMeta>)
      requires NodeOk() && 0 < |content| < TWO_64
      requires meta.blockAllocator.nextBlockId + BlockCount(|content|, SelectBlockLevel(|content|)) <= TWO_64
      modifies meta.blockAllocator, data.node, data.node.pool`states, data.node.pool.footprint
      ensures NodeOk() && KeepsAll(old(data.node.shelf), data.node.shelf)
      ensures meta.blockAllocator.nextBlockId >= old(meta.blockAllocator.nextBlockId)
      ensures TransferAnswer(content, old(meta.blockAllocator.nextBlockId), online, accepts, |committed|, status)
      ensures status == Ok ==>
                && meta.blockAllocator.nextBlockId == old(meta.blockAllocator.nextBlockId) + |committed| && |committed| > 0
                && |committed| == BlockCount(|content|, SelectBlockLevel(|content|))
                && Describe(data.node.shelf, committed, Chunks(content, BlockLevelSize(SelectBlockLevel(|content|)), |committed|),
                            old(meta.blockAllocator.nextBlockId))
    {
      committed := [];
      var level := SelectBlockLevel(|content|);
      var slices := SplitWithLevel(content, level);
      if slices == [] {
        return Internal, committed;
      }
      ghost var first := meta.blockAllocator.nextBlockId;
      var targets;
      status, targets := meta.blockAllocator.Allocate(|slices|, level, online);
      if status != Ok {
        return;
      }
      status, committed := StoreSlices(content, BlockLevelSize(level), slices, targets, first, accepts);
    }

    /** Step 5 of WriteFile: the stored blocks are committed to the new inode. */
    method Commit(inodeId: nat, committed: seq<BM.BlockMeta>, mtime: nat, ctime: nat)
      requires NodeOk() && (inodeId in meta.inodeTable.inodes ==> meta.inodeTable.inodes[inodeId].id == inodeId)
      modifies meta.inodeTable, meta.blockMap
      ensures NodeOk() && Committed(old(World()), World(), inodeId, committed, mtime, ctime)
    {
      var status := meta.CommitBlocks(inodeId, committed, mtime, ctime);
    }

    method CommitFile(inodeId: nat, committed: seq<BM.BlockMeta>, mtime: nat, ctime: nat, ghost w: FileStore.World,
                      ghost first: nat, ghost path: string, ghost size: nat, ghost parts: seq<seq<byte>>)
      requires NodeOk() && (inodeId in meta.inodeTable.inodes ==> meta.inodeTable.inodes[inodeId].id == inodeId)
      requires StoreOk(w, first) && inodeId == w.tree.nextId
      requires Abandoned(w, World(), path, size) && Describe(data.node.shelf, committed, parts, first)
      requires |committed| > 0 && |Crc32.Concat(parts)| > 0 && meta.blockAllocator.nextBlockId == first + |committed|
      modifies meta.inodeTable, meta.blockMap
      ensures Valid() && ReadsWith(w, World(), path, Crc32.Concat(parts))
      ensures World().tree == Touched(old(World()).tree, inodeId, |Crc32.Concat(parts)|, mtime, ctime)
    {
      assert TotalSize(committed) == |Crc32.Concat(parts)| by {
        TotalOfParts(data.node.shelf, committed, parts, first);
      }
      ghost var w1 := World();
      Commit(inodeId, committed, mtime, ctime);
      ghost var w2 := World();
      CommittedOutcome(w, first, w1, w2, path, size, committed, parts, mtime, ctime);
      assert meta.blockAllocator.nextBlockId == first + |committed|;
    }

    /** Steps 2 to 5 of WriteFile, for a file just created. */
    method Fill(inodeId: nat, content: seq<byte>, online: bool, accepts: nat -> nat, mtime: nat, ctime: nat,
                ghost w: FileStore.World, ghost path: string)
      returns (status: Status, ghost stored: nat)
      requires NodeOk() && StoreOk(w, meta.blockAllocator.nextBlockId) && |content| < TWO_64
      requires meta.blockAllocator.nextBlockId + BlockCount(|content|, SelectBlockLevel(|content|)) <= TWO_64
      requires Abandoned(w, World(), path, |content|) && inodeId == w.tree.nextId && w.shelf == data.node.shelf
      modifies meta.inodeTable, meta.blockMap, meta.blockAllocator
      modifies data.node, data.node.pool`states, data.node.pool.footprint
      ensures Valid()
      ensures if |content| == 0 then status == Ok
              else TransferAnswer(content, old(meta.blockAllocator.nextBlockId), online, accepts, stored, status)
      ensures status == Ok ==> ReadsWith(w, World(), path, content[..Covered(|content|, SelectBlockLevel(|content|))])
      ensures status != Ok ==> SameReads(w, World()) && World().tree == old(World()).tree
      ensures status == Ok ==> World().tree == Sized(old(World()).tree, inodeId, |content|, mtime, ctime)
    {
      ghost var first := meta.blockAllocator.nextBlockId;
      if |content| == 0 {
        AbandonedOutcome(w, first, World(), first, path, 0);
        return Ok, 0;
      }
      var committed;
      status, committed := Transfer(content, online, accepts);
      stored := |committed|;
      if status != Ok {
        AbandonedOutcome(w, first, World(), meta.blockAllocator.nextBlockId, path, |content|);
        return;
      }
      ghost var parts := Chunks(content, BlockLevelSize(SelectBlockLevel(|content|)), |committed|);
      PartsCover(content);
      CommitFile(inodeId, committed, mtime, ctime, w, first, path, |content|, parts);
    }

    /** WriteFile, src/client/openfs_client.cpp:25-124. `accepts` says what the chosen device takes of each slice, `online`
      * whether a data node is up. A write that fails changes no read; one that succeeds makes exactly its own path read the
      * bytes its slices cover (see CoversExactly). A write that fails after CreateFile leaves its name taken: a retry is
      * refused until the path is deleted (see CreatedFileTakesName). */
    method WriteFile(path: string, a: Attributes, content: seq<byte>, online: bool, accepts: nat -> nat, mtime: nat, ctime: nat)
      returns (status: Status, ghost stored: nat)
      requires Valid() && path != "/" && |content| < TWO_64
      requires meta.blockAllocator.nextBlockId + BlockCount(|content|, SelectBlockLevel(|content|)) <= TWO_64
      modifies meta.namespaceMgr`dirEntries, meta.inodeTable, meta.blockMap, meta.blockAllocator
      modifies data.node, data.node.pool`states, data.node.pool.footprint
      ensures Valid()
      ensures var created := NamespaceEffects.CreateFile(old(World()).tree, path, a, |content|).status;
              if !old(initialized) then status == Internal
              else if created != Ok then status == created
              else if |content| == 0 then status == Ok
              else TransferAnswer(content, old(meta.blockAllocator.nextBlockId), online, accepts, stored, status)
      ensures status == Ok ==> ReadsWith(old(World()), World(), path, content[..Covered(|content|, SelectBlockLevel(|content|))])
      ensures status != Ok ==> SameReads(old(World()), World())
      ensures status != Ok ==> World().tree == if old(initialized) then NamespaceEffects.CreateFile(old(World()).tree, path, a, |content|).tree
                                               else old(World()).tree
      ensures status == Ok ==>
                World().tree == Sized(NamespaceEffects.CreateFile(old(World()).tree, path, a, |content|).tree,
                                      old(World()).tree.nextId, |content|, mtime, ctime)
    {
      stored := 0;
      if !initialized {
        return Internal, 0;
      }
      ghost var w := World();
      var inodeId;
      status, inodeId := meta.namespaceMgr.CreateFile(path, a, |content|);
      if status != Ok {
        CreateFailed(w, path, a, |content|);
        return;
      }
      CreateFileCreates(w.tree, path, a, |content|);
      status, stored := Fill(inodeId, content, online, accepts, mtime, ctime, w, path);
    }

    /** One event took world `w` to the present one, with no block id given out. */
    ghost predicate Becomes(w: FileStore.World, e: FileEvent)
      reads meta.namespaceMgr, meta.namespaceMgr.inodeTable, meta.blockMap, meta.blockAllocator, data.node
    {
      Happens(w, meta.blockAllocator.nextBlockId, World(), meta.blockAllocator.nextBlockId, e)
    }

    /** DeleteFile, src/client/openfs_client.cpp:216-221: only the namespace changes. */
    method DeleteFile(path: string) returns (status: Status)
      requires Valid()
      modifies meta.namespaceMgr`dirEntries, meta.inodeTable
      ensures Valid()
      ensures status == if initialized then NamespaceEffects.DeleteFile(old(World()).tree, path).status else Internal
      ensures status == Ok ==> Becomes(old(World()), Removed(path))
      ensures status != Ok ==> World() == old(World())
    {
      if !initialized {
        return Internal;
      }
      ghost var w := World();
      status := meta.namespaceMgr.DeleteFile(path);
      RemovalKeepsStore(w, meta.blockAllocator.nextBlockId, path);
    }

    /** Rename, src/client/openfs_client.cpp:230-235: only the tree changes, and the invariants survive exactly if the rename
      * does it no harm. */
    method Rename(src: string, dst: string, now: nat) returns (status: Status)
      requires Valid()
      modifies meta.namespaceMgr`dirEntries, meta.inodeTable
      ensures NodeOk() && (Valid() <==> !(initialized && NR.Destroys(old(World()).tree, src, dst)))
      ensures status == if initialized then NR.Rename(old(World()).tree, src, dst, now).status else Internal
      ensures World() == if initialized then old(World()).(tree := NR.Rename(old(World()).tree, src, dst, now).tree) else old(World())
      ensures Valid() && status == Ok ==> Becomes(old(World()), Renamed(src, dst, now))
      ensures Valid() && status != Ok ==> World() == old(World())
    {
      if !initialized {
        return Internal;
      }
      ghost var w := World();
      IdsAgree(w.tree);
      status := meta.namespaceMgr.Rename(src, dst, now);
      RenameOutcome(w, meta.blockAllocator.nextBlockId, src, dst, now);
    }

    /** MkDir, src/client/openfs_client.cpp:237-242. */
    method MkDir(path: string, a: Attributes) returns (status: Status)
      requires Valid()
      modifies meta.namespaceMgr`dirEntries, meta.inodeTable
      ensures Valid()
      ensures status == if initialized then NamespaceEffects.MkDir(old(World()).tree, path, a).status else Internal
      ensures status == Ok ==> Becomes(old(World()), MadeDirectory(path, a))
      ensures status != Ok ==> World() == old(World())
    {
      if !initialized {
        return Internal;
      }
      ghost var w := World();
      status := meta.namespaceMgr.MkDir(path, a);
      MkDirKeepsStore(w, meta.blockAllocator.nextBlockId, path, a);
    }

    /** RmDir, src/client/openfs_client.cpp:251-256. */
    method RmDir(path: string) returns (status: Status)
      requires Valid()
      modifies meta.namespaceMgr`dirEntries, meta.inodeTable
      ensures Valid()
      ensures status == if initialized then NamespaceEffects.RmDir(old(World()).tree, path).status else Internal
      ensures status == Ok ==> Becomes(old(World()), RemovedDirectory(path))
      ensures status != Ok ==> World() == old(World())
    {
      if !initialized {
        return Internal;
      }
      ghost var w := World();
      status := meta.namespaceMgr.RmDir(path);
      RmDirKeepsStore(w, meta.blockAllocator.nextBlockId, path);
    }

    /** One round of the read loop: read, check, copy. */
    method ReadNext(blocks: seq<BM.BlockMeta>, i: nat, buf: seq<byte>, offset: nat)
      returns (status: Status, out: seq<byte>, next: nat)
      requires NodeOk() && i < |blocks| && Backed(data.node.shelf, blocks[i]) && offset <= |buf|
      ensures |out| == |buf| && next <= |out|
      ensures Assemble(data.node.shelf, blocks[i..], buf, offset) ==
              if status == Ok then Assemble(data.node.shelf, blocks[i + 1..], out, next) else FileReply(status, out)
    {
      AssembleNext(data.node.shelf, blocks, i, buf, offset);
      out, next := buf, offset;
      var bytes, crc;
      status, bytes, crc := data.ReadBlock(blocks[i].diskId, blocks[i].offset);
      if status != Ok {
        return;
      }
      var computed := ComputeSum(bytes);
      if computed != crc {
        return CRCMismatch, out, next;
      }
      var copySize := Min(|bytes|, |out| - offset);
      out := Overwrite(out, offset, bytes[..copySize]);
      next := offset + copySize;
    }

    /** The read loop of ReadFile, src/client/openfs_client.cpp:162-209. */
    method ReadBlocks(blocks: seq<BM.BlockMeta>, buf: seq<byte>) returns (status: Status, out: seq<byte>)
      requires NodeOk()
      requires forall i | 0 <= i < |blocks| :: Backed(data.node.shelf, blocks[i])
      ensures FileReply(status, out) == Assemble(data.node.shelf, blocks, buf, 0)
    {
      out := buf;
      var writeOffset: nat := 0;
      for i := 0 to |blocks|
        invariant |out| == |buf| && writeOffset <= |out|
        invariant Assemble(data.node.shelf, blocks, buf, 0) == Assemble(data.node.shelf, blocks[i..], out, writeOffset)
      {
        status, out, writeOffset := ReadNext(blocks, i, out, writeOffset);
        if status != Ok {
          return;
        }
      }
      status := Ok;
    }

    /** ReadFile, src/client/openfs_client.cpp:126-214, into a vector that held `buf`. */
    method ReadFile(path: string, buf: seq<byte>) returns (status: Status, out: seq<byte>)
      requires Valid()
      ensures initialized ==> FileReply(status, out) == FileStore.ReadFile(World(), path, buf)
      ensures !initialized ==> status == Internal
    {
      if !initialized {
        return Internal, buf;
      }
      var r := meta.namespaceMgr.Lookup(path);
      if r.Missing? {
        return r.status, buf;
      }
      if r.inode.size == 0 {
        return Ok, [];
      }
      var blocks;
      status, blocks := meta.blockMap.GetBlocks(r.inode.id);
      if status != Ok {
        return status, buf;
      }
      if blocks == [] {
        return NotFound, buf;
      }
      MetasBacked(World(), meta.blockAllocator.nextBlockId, meta.blockMap.inodeBlocks[r.inode.id]);
      status, out := ReadBlocks(blocks, Resize(buf, r.inode.size));
    }
  }

  /** The data node goes down between operations and starts again: the client finds every file as it was. */
  method RestartDataNode(client: OpenFSClient)
    requires client.Valid()
    modifies client.data.node, client.data.node.pool`states, client.data.node.pool`regions, client.data.node.pool`footprint
    modifies client.data.node.pool.footprint
    ensures client.Valid() && client.World() == old(client.World())
    ensures client.Becomes(old(client.World()), NodeRestarted)
    ensures client.data.node.locations == map[]
  {
    client.data.node.Restart();
  }

  /** The same when it goes down inside a write of a block of some file. */
  method CutOffDataNode(client: OpenFSClient, id: nat, bytes: seq<byte>, crc: bv32, cut: DM.Cut)
    requires client.Valid() && Block(id, 0, crc, bytes).Fits()
    modifies client.data.node, client.data.node.pool`states, client.data.node.pool`regions, client.data.node.pool`footprint
    modifies client.data.node.pool.footprint
    ensures client.Valid() && client.World() == old(client.World())
    ensures client.Becomes(old(client.World()), NodeRestarted)
  {
    var level := SelectBlockLevel(|bytes|);
    client.data.node.WriteCutOff(Block(id, LevelByte(level), crc, bytes), cut);
  }

  lemma IdsAgree(t: Tree)
    requires IsTree(t)
    ensures forall id | id in t.inodes :: t.inodes[id].id == id
  {
    var rank :| TreeInv(t, rank);
  }

  lemma CreateFailed(w: World, path: string, a: Attributes, size: nat)
    requires IsTree(w.tree) && path != "/" && NamespaceEffects.CreateFile(w.tree, path, a, size).status != Ok
    ensures NamespaceEffects.CreateFile(w.tree, path, a, size).tree == w.tree
  {
    var rank :| TreeInv(w.tree, rank);
    CreateFileEffect(w.tree, rank, path, a, size, []);
  }

  /** The tree after the commit of a file of `size` bytes: its inode has the size of what its slices cover. */
  function Sized(t: Tree, id: nat, size: nat, mtime: nat, ctime: nat): Tree {
    if size == 0 then t else Touched(t, id, Covered(size, SelectBlockLevel(size)), mtime, ctime)
  }

  /** The slices of a non-empty file, put together. */
  lemma PartsCover(content: seq<byte>)
    requires 0 < |content| < TWO_64
    ensures var level := SelectBlockLevel(|content|); var n := BlockCount(|content|, level);
            && Crc32.Concat(Chunks(content, BlockLevelSize(level), n)) == content[..Covered(|content|, level)]
            && (n > 0 ==> Covered(|content|, level) > 0)
  {
    var level := SelectBlockLevel(|content|);
    ChunksTile(content, BlockLevelSize(level), BlockCount(|content|, level));
    if BlockCount(|content|, level) > 0 {
      Scale(1, BlockCount(|content|, level), BlockLevelSize(level));
    }
  }

  lemma DescribeNext(shelf: map<DN.Place, Block>, shelf': map<DN.Place, Block>, blocks: seq<BM.BlockMeta>, content: seq<byte>,
                     blk: nat, first: nat, m: BM.BlockMeta)
    requires Describe(shelf, blocks, Chunks(content, blk, |blocks|), first) && KeepsAll(shelf, shelf')
    requires m.id == first + |blocks| && m.size == |Chunk(content, blk, |blocks|)|
    requires Holds(shelf', m, Chunk(content, blk, |blocks|))
    ensures Describe(shelf', blocks + [m], Chunks(content, blk, |blocks| + 1), first)
  {
  }
}
