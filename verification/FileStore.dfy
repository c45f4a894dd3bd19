/** What ReadFile gives for every path, from namespace, block map and stored blocks together: src/client/openfs_client.cpp:126-214. */
module FileStore {
  import opened Bytes
  import opened Types
  import opened Namespace
  import opened NamespaceOps
  import opened NamespaceEffects
  import opened BlockRecord
  import opened BlockMap
  import opened DataNode
  import opened Checksum
  import Crc32

  /** The state a read depends on. `shelf` is what the data node's disks hold. */
  datatype World = World(tree: Tree, inodeBlocks: map<nat, seq<nat>>, metas: map<nat, BlockMeta>, shelf: map<Place, Block>)

  datatype FileReply = FileReply(status: Status, data: seq<byte>)

  /** The block the data service stores for a slice, src/data/data_service_impl.cpp:11-42. */
  ghost function BlockFor(id: nat, data: seq<byte>): Block {
    Block(id, LevelByte(SelectBlockLevel(|data|)), Sum(data), data)
  }

  /** Where ReadBlock looks: the disk id goes through uint32_t. */
  function PlaceOf(m: BlockMeta): Place {
    Place(m.diskId % TWO_32, m.offset)
  }

  ghost predicate Holds(shelf: map<Place, Block>, m: BlockMeta, data: seq<byte>) {
    PlaceOf(m) in shelf && shelf[PlaceOf(m)] == BlockFor(m.id, data)
  }

  predicate Backed(shelf: map<Place, Block>, m: BlockMeta) {
    PlaceOf(m) in shelf
  }

  /** Everything stored before is still stored. */
  ghost predicate KeepsAll(shelf: map<Place, Block>, shelf': map<Place, Block>) {
    forall p | p in shelf :: p in shelf' && shelf'[p] == shelf[p]
  }

  // ---- reading one file ----

  /** The loop of ReadFile: each block is read, checked against its checksum, and copied to `offset`. */
  ghost function Assemble(shelf: map<Place, Block>, metas: seq<BlockMeta>, out: seq<byte>, offset: nat): FileReply
    requires offset <= |out|
  {
    if metas == [] then FileReply(Ok, out)
    else if !Backed(shelf, metas[0]) then FileReply(IOError, out)
    else
      var b := shelf[PlaceOf(metas[0])];
      if Sum(b.data) != b.crc then FileReply(CRCMismatch, out)
      else
        var n := Min(|b.data|, |out| - offset);
        Assemble(shelf, metas[1..], Overwrite(out, offset, b.data[..n]), offset + n)
  }

  /** One round of that loop. */
  lemma AssembleNext(shelf: map<Place, Block>, metas: seq<BlockMeta>, i: nat, out: seq<byte>, offset: nat)
    requires i < |metas| && Backed(shelf, metas[i]) && offset <= |out|
    ensures var b := shelf[PlaceOf(metas[i])]; var n := Min(|b.data|, |out| - offset);
            Assemble(shelf, metas[i..], out, offset) ==
            if Sum(b.data) != b.crc then FileReply(CRCMismatch, out)
            else Assemble(shelf, metas[i + 1..], Overwrite(out, offset, b.data[..n]), offset + n)
  {
    assert metas[i..][0] == metas[i] && metas[i..][1..] == metas[i + 1..];
  }

  function Resize(buf: seq<byte>, size: nat): (r: seq<byte>)
    ensures |r| == size
  {
    if size <= |buf| then buf[..size] else buf + Zeros(size - |buf|)
  }

  /** Reading the file of inode `id` whose size is `size`. */
  ghost function ReadInode(w: World, id: nat, size: nat, buf: seq<byte>): FileReply {
    if size == 0 then FileReply(Ok, [])
    else if id !in w.inodeBlocks then FileReply(NotFound, buf)
    else
      var metas := MetasOf(w.metas, w.inodeBlocks[id]);
      if metas == [] then FileReply(NotFound, buf)
      else Assemble(w.shelf, metas, Resize(buf, size), 0)
  }

  /** ReadFile into a vector that held `buf`. */
  ghost function ReadFile(w: World, path: string, buf: seq<byte>): FileReply {
    match Lookup(w.tree, path)
    case Missing(status) => FileReply(status, buf)
    case Found(inode) => ReadInode(w, inode.id, inode.size, buf)
  }

  /** Blocks stored before read the same while everything is still stored. */
  lemma {:induction false} AssembleKept(shelf: map<Place, Block>, shelf': map<Place, Block>, metas: seq<BlockMeta>, out: seq<byte>, offset: nat)
    requires KeepsAll(shelf, shelf')
    requires forall i | 0 <= i < |metas| :: Backed(shelf, metas[i])
    requires offset <= |out|
    ensures Assemble(shelf', metas, out, offset) == Assemble(shelf, metas, out, offset)
    decreases |metas|
  {
    if metas != [] {
      var data := shelf[PlaceOf(metas[0])].data;
      var n := Min(|data|, |out| - offset);
      AssembleKept(shelf, shelf', metas[1..], Overwrite(out, offset, data[..n]), offset + n);
    }
  }

  lemma {:induction false} ConcatFirst(parts: seq<seq<byte>>)
    requires parts != []
    ensures Crc32.Concat(parts) == parts[0] + Crc32.Concat(parts[1..])
    decreases |parts|
  {
    if |parts| > 1 {
      ConcatFirst(parts[..|parts| - 1]);
      assert parts[..|parts| - 1][1..] == parts[1..][..|parts| - 2];
    }
  }

  /** Blocks that hold the pieces of the rest of the file fill it with them. */
  lemma {:induction false} AssembleFills(shelf: map<Place, Block>, metas: seq<BlockMeta>, parts: seq<seq<byte>>, out: seq<byte>, offset: nat)
    requires |metas| == |parts|
    requires forall i | 0 <= i < |metas| :: Holds(shelf, metas[i], parts[i])
    requires |out| == offset + |Crc32.Concat(parts)|
    ensures Assemble(shelf, metas, out, offset) == FileReply(Ok, out[..offset] + Crc32.Concat(parts))
    decreases |metas|
  {
    if metas == [] {
      assert out[..offset] == out;
    } else {
      assert Holds(shelf, metas[0], parts[0]);
      ConcatFirst(parts);
      var n := |parts[0]|;
      assert parts[0][..n] == parts[0];
      var out' := Overwrite(out, offset, parts[0]);
      AssembleFills(shelf, metas[1..], parts[1..], out', offset + n);
      assert out'[..offset + n] == out[..offset] + parts[0];
    }
  }

  /** The block of `m` is stored and agrees with its checksum. */
  ghost predicate SoundBlock(shelf: map<Place, Block>, m: BlockMeta) {
    Backed(shelf, m) && Sum(shelf[PlaceOf(m)].data) == shelf[PlaceOf(m)].crc
  }

  function StoredBytes(shelf: map<Place, Block>, m: BlockMeta): seq<byte> {
    if Backed(shelf, m) then shelf[PlaceOf(m)].data else []
  }

  /** The bytes of the stored blocks. */
  function BytesOf(shelf: map<Place, Block>, metas: seq<BlockMeta>): (parts: seq<seq<byte>>)
    ensures |parts| == |metas| && forall i | 0 <= i < |metas| :: parts[i] == StoredBytes(shelf, metas[i])
  {
    seq(|metas|, i requires 0 <= i < |metas| => StoredBytes(shelf, metas[i]))
  }

  /** `out` with `data` copied over it from `offset` on, as far as it goes. */
  function Laid(out: seq<byte>, offset: nat, data: seq<byte>): (r: seq<byte>)
    ensures |r| == |out|
    ensures forall i | 0 <= i < |out| :: r[i] == if offset <= i < offset + |data| then data[i - offset] else out[i]
  {
    seq(|out|, i requires 0 <= i < |out| => if offset <= i < offset + |data| then data[i - offset] else out[i])
  }

  lemma LaidTwice(out: seq<byte>, offset: nat, a: seq<byte>, b: seq<byte>)
    requires offset <= |out|
    ensures Laid(Laid(out, offset, a), offset + Min(|a|, |out| - offset), b) == Laid(out, offset, a + b)
  {
    var n := Min(|a|, |out| - offset);
    var left, right := Laid(Laid(out, offset, a), offset + n, b), Laid(out, offset, a + b);
    forall i | 0 <= i < |out|
      ensures left[i] == right[i]
    {
    }
  }

  lemma LaidIsOverwrite(out: seq<byte>, offset: nat, data: seq<byte>)
    requires offset <= |out|
    ensures Overwrite(out, offset, data[..Min(|data|, |out| - offset)]) == Laid(out, offset, data)
  {
    var buf := data[..Min(|data|, |out| - offset)];
    var left, right := Overwrite(out, offset, buf), Laid(out, offset, data);
    forall i | 0 <= i < |out|
      ensures left[i] == right[i]
    {
      if offset <= i < offset + |buf| {
        assert left[offset..offset + |buf|][i - offset] == left[i];
      }
    }
  }

  ghost predicate AllSound(shelf: map<Place, Block>, metas: seq<BlockMeta>) {
    forall i | 0 <= i < |metas| :: SoundBlock(shelf, metas[i])
  }

  lemma SoundRest(shelf: map<Place, Block>, metas: seq<BlockMeta>)
    requires AllSound(shelf, metas) && metas != []
    ensures SoundBlock(shelf, metas[0]) && AllSound(shelf, metas[1..])
  {
  }

  /** Sound blocks are laid one behind the other over the buffer, and what has no room is cut off. */
  lemma {:induction false} AssembleLays(shelf: map<Place, Block>, metas: seq<BlockMeta>, out: seq<byte>, offset: nat)
    requires offset <= |out| && AllSound(shelf, metas)
    ensures Lays(shelf, metas, out, offset, Crc32.Concat(BytesOf(shelf, metas)))
    decreases |metas|
  {
    if metas == [] {
      LaidNothing(out, offset);
    } else {
      SoundRest(shelf, metas);
      var data := StoredBytes(shelf, metas[0]);
      AssembleLays(shelf, metas[1..], Laid(out, offset, data), offset + Min(|data|, |out| - offset));
      BytesOfFirst(shelf, metas);
      LaysFirst(shelf, metas, out, offset, Crc32.Concat(BytesOf(shelf, metas[1..])));
    }
  }

  ghost predicate Lays(shelf: map<Place, Block>, metas: seq<BlockMeta>, out: seq<byte>, offset: nat, data: seq<byte>)
    requires offset <= |out|
  {
    Assemble(shelf, metas, out, offset) == FileReply(Ok, Laid(out, offset, data))
  }

  lemma LaysFirst(shelf: map<Place, Block>, metas: seq<BlockMeta>, out: seq<byte>, offset: nat, rest: seq<byte>)
    requires metas != [] && SoundBlock(shelf, metas[0]) && offset <= |out|
    requires var data := StoredBytes(shelf, metas[0]);
             Lays(shelf, metas[1..], Laid(out, offset, data), offset + Min(|data|, |out| - offset), rest)
    ensures Lays(shelf, metas, out, offset, StoredBytes(shelf, metas[0]) + rest)
  {
    LaidTwice(out, offset, StoredBytes(shelf, metas[0]), rest);
    AssembleFirst(shelf, metas, out, offset);
  }

  lemma LaidNothing(out: seq<byte>, offset: nat)
    ensures Laid(out, offset, []) == out
  {
  }

  lemma BytesOfFirst(shelf: map<Place, Block>, metas: seq<BlockMeta>)
    requires metas != []
    ensures Crc32.Concat(BytesOf(shelf, metas)) == StoredBytes(shelf, metas[0]) + Crc32.Concat(BytesOf(shelf, metas[1..]))
  {
    assert BytesOf(shelf, metas)[1..] == BytesOf(shelf, metas[1..]);
    ConcatFirst(BytesOf(shelf, metas));
  }

  lemma AssembleFirst(shelf: map<Place, Block>, metas: seq<BlockMeta>, out: seq<byte>, offset: nat)
    requires metas != [] && SoundBlock(shelf, metas[0]) && offset <= |out|
    ensures var data := StoredBytes(shelf, metas[0]);
            Assemble(shelf, metas, out, offset) ==
            Assemble(shelf, metas[1..], Laid(out, offset, data), offset + Min(|data|, |out| - offset))
  {
    LaidIsOverwrite(out, offset, StoredBytes(shelf, metas[0]));
  }

  /** The first block that is not sound ends the read: it is missing, or its bytes do not agree with its checksum. */
  lemma {:induction false} AssembleStops(shelf: map<Place, Block>, metas: seq<BlockMeta>, k: nat, out: seq<byte>, offset: nat)
    requires offset <= |out| && k < |metas| && !SoundBlock(shelf, metas[k])
    requires forall i | 0 <= i < k :: SoundBlock(shelf, metas[i])
    ensures Assemble(shelf, metas, out, offset).status == if Backed(shelf, metas[k]) then CRCMismatch else IOError
    decreases k
  {
    if k > 0 {
      assert SoundBlock(shelf, metas[0]);
      var data := shelf[PlaceOf(metas[0])].data;
      var n := Min(|data|, |out| - offset);
      AssembleStops(shelf, metas[1..], k - 1, Overwrite(out, offset, data[..n]), offset + n);
    }
  }

  lemma {:induction false} FirstUnsound(shelf: map<Place, Block>, metas: seq<BlockMeta>) returns (k: nat)
    ensures k <= |metas| && (forall i | 0 <= i < k :: SoundBlock(shelf, metas[i]))
    ensures k < |metas| ==> !SoundBlock(shelf, metas[k])
    decreases |metas|
  {
    if metas == [] || !SoundBlock(shelf, metas[0]) {
      k := 0;
    } else {
      var rest := FirstUnsound(shelf, metas[1..]);
      k := rest + 1;
      assert forall i | 0 < i < k :: metas[i] == metas[1..][i - 1];
    }
  }

  /** No read hands out bytes that do not agree with their checksum: it succeeds exactly if every block of the file is sound. */
  lemma ReadSucceedsExactly(w: World, id: nat, size: nat, buf: seq<byte>)
    requires size > 0 && id in w.inodeBlocks && MetasOf(w.metas, w.inodeBlocks[id]) != []
    ensures var metas := MetasOf(w.metas, w.inodeBlocks[id]);
            ReadInode(w, id, size, buf).status == Ok <==> forall m | m in metas :: SoundBlock(w.shelf, m)
  {
    var metas := MetasOf(w.metas, w.inodeBlocks[id]);
    var k := FirstUnsound(w.shelf, metas);
    if k < |metas| {
      AssembleStops(w.shelf, metas, k, Resize(buf, size), 0);
      assert metas[k] in metas;
    } else {
      AssembleLays(w.shelf, metas, Resize(buf, size), 0);
    }
  }

  // ---- the invariant ----

  ghost predicate ListOk(w: World, id: nat)
    requires id in w.inodeBlocks
  {
    id < w.tree.nextId && forall k | 0 <= k < |w.inodeBlocks[id]| :: w.inodeBlocks[id][k] in w.metas
  }

  ghost predicate MetaOk(w: World, nextBlock: nat, id: nat)
    requires id in w.metas
  {
    id < nextBlock && Backed(w.shelf, w.metas[id])
  }

  /** Lists belong to inode ids given out before, blocks to block ids given out before, and every recorded block is stored. */
  ghost predicate StoreOk(w: World, nextBlock: nat) {
    && (forall id {:trigger ListOk(w, id)} | id in w.inodeBlocks :: ListOk(w, id))
    && (forall id {:trigger MetaOk(w, nextBlock, id)} | id in w.metas :: MetaOk(w, nextBlock, id))
  }

  lemma {:induction false} MetasBacked(w: World, nextBlock: nat, ids: seq<nat>)
    requires StoreOk(w, nextBlock)
    ensures forall i | 0 <= i < |MetasOf(w.metas, ids)| :: Backed(w.shelf, MetasOf(w.metas, ids)[i])
  {
    if ids != [] {
      MetasBacked(w, nextBlock, ids[..|ids| - 1]);
      var id := ids[|ids| - 1];
      assert id in w.metas ==> MetaOk(w, nextBlock, id);
    }
  }

  /** `w'` has more blocks, under new ids and in new places. */
  ghost predicate OnlyNewBlocks(w: World, nextBlock: nat, w': World, blocks: seq<BlockMeta>) {
    && KeepsAll(w.shelf, w'.shelf)
    && w'.metas == WithMetas(w.metas, blocks)
    && forall i | 0 <= i < |blocks| :: blocks[i].id >= nextBlock
  }

  /** A file whose list is as before reads as before. */
  lemma SameInodeRead(w: World, nextBlock: nat, w': World, blocks: seq<BlockMeta>, id: nat, size: nat, buf: seq<byte>)
    requires StoreOk(w, nextBlock) && OnlyNewBlocks(w, nextBlock, w', blocks)
    requires id in w'.inodeBlocks <==> id in w.inodeBlocks
    requires id in w.inodeBlocks ==> w'.inodeBlocks[id] == w.inodeBlocks[id]
    ensures ReadInode(w', id, size, buf) == ReadInode(w, id, size, buf)
  {
    if id in w.inodeBlocks {
      var ids := w.inodeBlocks[id];
      assert ListOk(w, id);
      forall i, j | 0 <= i < |ids| && 0 <= j < |blocks|
        ensures ids[i] != blocks[j].id
      {
        assert MetaOk(w, nextBlock, ids[i]);
      }
      OtherFileKept(w.metas, blocks, ids);
      MetasBacked(w, nextBlock, ids);
      AssembleKept(w.shelf, w'.shelf, MetasOf(w.metas, ids), Resize(buf, size), 0);
    }
  }

  // ---- the namespace side ----

  lemma {:induction false} ReachSameDirs(t: Tree, t': Tree, cs: seq<string>)
    requires t'.dirs == t.dirs
    ensures Reach(t', ROOT, cs) == Reach(t, ROOT, cs)
  {
    if cs != [] {
      ReachSameDirs(t, t', cs[..|cs| - 1]);
    }
  }

  /** The inode of a file after CommitBlocks set its size and times. */
  function Touched(t: Tree, id: nat, size: nat, mtime: nat, ctime: nat): Tree {
    if id in t.inodes then t.(inodes := t.inodes[id := t.inodes[id].(size := size, mtime := mtime, ctime := ctime)]) else t
  }

  lemma TouchedIsTree(t: Tree, rank: map<nat, nat>, id: nat, size: nat, mtime: nat, ctime: nat)
    requires TreeInv(t, rank)
    ensures TreeInv(Touched(t, id, size, mtime, ctime), rank)
  {
    var t' := Touched(t, id, size, mtime, ctime);
    forall d | d in t'.dirs
      ensures EntriesOk(t', d)
    {
      assert EntriesOk(t, d);
      forall i | 0 <= i < |t'.dirs[d]|
        ensures EntryOk(t', d, t'.dirs[d][i])
      {
        assert EntryOk(t, d, t.dirs[d][i]);
      }
    }
    forall other | other in t'.inodes && other != ROOT
      ensures Hangs(t', rank, other)
    {
      assert Hangs(t, rank, other);
    }
  }

  predicate SamePath(path1: string, path2: string) {
    Wellformed(path1) && Components(path1) == Components(path2)
  }

  /** `q` finds the new file if it names `path`, and what it found before if not. */
  ghost predicate FindsCreated(t: Tree, t': Tree, path: string, q: string) {
    && (Lookup(t, q).Found? ==> Lookup(t, q).inode.id < t.nextId)
    && if SamePath(q, path) then
         Lookup(t, q) == Missing(NotFound) && t.nextId in t'.inodes && Lookup(t', q) == Found(t'.inodes[t.nextId])
       else Lookup(t', q) == Lookup(t, q)
  }

  /** A file of the given size was created at `path`, under the next inode id, and nothing else changed for any path. */
  ghost predicate Created(t: Tree, t': Tree, path: string, size: nat) {
    && IsTree(t') && t'.nextId == t.nextId + 1
    && t.nextId in t'.inodes && t'.inodes[t.nextId].id == t.nextId && t'.inodes[t.nextId].size == size
    && forall q {:trigger FindsCreated(t, t', path, q)} :: FindsCreated(t, t', path, q)
  }

  lemma CreateFileCreates(t: Tree, path: string, a: Attributes, size: nat)
    requires IsTree(t) && path != "/" && CreateFile(t, path, a, size).status == Ok
    ensures Created(t, CreateFile(t, path, a, size).tree, path, size)
  {
    var rank :| TreeInv(t, rank);
    var t' := CreateFile(t, path, a, size).tree;
    CreateFileEffect(t, rank, path, a, size, []);
    forall q
      ensures FindsCreated(t, t', path, q)
    {
      CreatedLookup(t, rank, path, a, size, q);
    }
  }

  lemma CreatedLookup(t: Tree, rank: map<nat, nat>, path: string, a: Attributes, size: nat, q: string)
    requires TreeInv(t, rank) && path != "/" && CreateFile(t, path, a, size).status == Ok
    ensures FindsCreated(t, CreateFile(t, path, a, size).tree, path, q)
  {
    CreateFileEffect(t, rank, path, a, size, Components(q));
    var t' := CreateFile(t, path, a, size).tree;
    var rank' :| TreeInv(t', rank');
    LookupIsReach(t, rank, q);
    LookupIsReach(t', rank', q);
    if Reach(t, ROOT, Components(q)).Some? {
      ReachDepth(t, rank, Components(q));
    }
  }

  lemma TouchedLookup(t: Tree, rank: map<nat, nat>, id: nat, size: nat, mtime: nat, ctime: nat, q: string)
    requires TreeInv(t, rank)
    ensures var t' := Touched(t, id, size, mtime, ctime);
            match Lookup(t, q)
            case Missing(status) => Lookup(t', q) == Missing(status)
            case Found(inode) =>
              Lookup(t', q) == Found(if inode.id == id then inode.(size := size, mtime := mtime, ctime := ctime) else inode)
  {
    TouchedIsTree(t, rank, id, size, mtime, ctime);
    var t' := Touched(t, id, size, mtime, ctime);
    LookupIsReach(t, rank, q);
    LookupIsReach(t', rank, q);
    ReachSameDirs(t, t', Components(q));
    if Reach(t, ROOT, Components(q)).Some? {
      ReachDepth(t, rank, Components(q));
    }
  }

  // ---- the two outcomes of WriteFile ----

  /** The file was created, some of its blocks may be stored, and nothing was committed. */
  ghost predicate Abandoned(w: World, w': World, path: string, size: nat) {
    && Created(w.tree, w'.tree, path, size)
    && w'.inodeBlocks == w.inodeBlocks && w'.metas == w.metas && KeepsAll(w.shelf, w'.shelf)
  }

  lemma AbandonedKeepsStore(w: World, nextBlock: nat, w': World, nextBlock': nat, path: string, size: nat)
    requires StoreOk(w, nextBlock) && nextBlock <= nextBlock' && Abandoned(w, w', path, size)
    ensures IsTree(w'.tree) && StoreOk(w', nextBlock')
  {
    forall id | id in w'.inodeBlocks
      ensures ListOk(w', id)
    {
      assert ListOk(w, id);
    }
    forall id | id in w'.metas
      ensures MetaOk(w', nextBlock', id)
    {
      assert MetaOk(w, nextBlock, id);
    }
  }

  /** No blocks are listed yet for the next inode. */
  lemma NothingListed(w: World, nextBlock: nat)
    requires StoreOk(w, nextBlock)
    ensures w.tree.nextId !in w.inodeBlocks
  {
    assert w.tree.nextId in w.inodeBlocks ==> ListOk(w, w.tree.nextId);
  }

  /** A write that stopped after creating its file left no trace in what any path reads: the new file reads as absent,
    * unless it is meant to be empty. */
  lemma AbandonedReads(w: World, nextBlock: nat, w': World, path: string, size: nat, q: string, buf: seq<byte>)
    requires StoreOk(w, nextBlock) && Abandoned(w, w', path, size)
    ensures ReadFile(w', q, buf) == if size == 0 && SamePath(q, path) then FileReply(Ok, []) else ReadFile(w, q, buf)
  {
    assert FindsCreated(w.tree, w'.tree, path, q);
    if SamePath(q, path) {
      NothingListed(w, nextBlock);
    } else if Lookup(w.tree, q).Found? {
      assert WithMetas(w.metas, []) == w.metas;
      SameInodeRead(w, nextBlock, w', [], Lookup(w.tree, q).inode.id, Lookup(w.tree, q).inode.size, buf);
    }
  }

  /** The sizes of the committed blocks added up. */
  function TotalSize(blocks: seq<BlockMeta>): nat {
    if blocks == [] then 0 else TotalSize(blocks[..|blocks| - 1]) + blocks[|blocks| - 1].size
  }

  /** `blocks` describe the pieces `parts`, under consecutive ids from `first`. */
  ghost predicate Describe(shelf: map<Place, Block>, blocks: seq<BlockMeta>, parts: seq<seq<byte>>, first: nat) {
    && |blocks| == |parts|
    && forall i {:trigger blocks[i]} | 0 <= i < |blocks| ::
         blocks[i].id == first + i && blocks[i].size == |parts[i]| && Holds(shelf, blocks[i], parts[i])
  }

  lemma {:induction false} TotalOfParts(shelf: map<Place, Block>, blocks: seq<BlockMeta>, parts: seq<seq<byte>>, first: nat)
    requires Describe(shelf, blocks, parts, first)
    ensures TotalSize(blocks) == |Crc32.Concat(parts)|
    decreases |blocks|
  {
    if blocks != [] {
      TotalOfParts(shelf, blocks[..|blocks| - 1], parts[..|parts| - 1], first);
      assert blocks[|blocks| - 1].size == |parts[|parts| - 1]|;
    }
  }

  /** What CommitBlocks does: the file's list grows by the blocks, and its size becomes their total. */
  ghost predicate Committed(w: World, w': World, id: nat, blocks: seq<BlockMeta>, mtime: nat, ctime: nat) {
    && w'.tree == Touched(w.tree, id, TotalSize(blocks), mtime, ctime)
    && w'.inodeBlocks == w.inodeBlocks[id := (if id in w.inodeBlocks then w.inodeBlocks[id] else []) + Ids(blocks)]
    && w'.metas == WithMetas(w.metas, blocks)
    && w'.shelf == w.shelf
  }

  lemma {:induction false} MetasKeys(metas: map<nat, BlockMeta>, blocks: seq<BlockMeta>)
    ensures forall id :: id in WithMetas(metas, blocks) <==> (id in metas || id in Ids(blocks))
    ensures forall id | id in metas && id !in Ids(blocks) :: WithMetas(metas, blocks)[id] == metas[id]
    ensures forall id | id in Ids(blocks) :: WithMetas(metas, blocks)[id] in blocks
  {
    if blocks != [] {
      var front, last := blocks[..|blocks| - 1], blocks[|blocks| - 1];
      MetasKeys(metas, front);
      assert Ids(blocks) == Ids(front) + [last.id];
      assert blocks == front + [last];
    }
  }

  lemma DescribedIsBacked(shelf: map<Place, Block>, blocks: seq<BlockMeta>, parts: seq<seq<byte>>, first: nat, m: BlockMeta)
    requires Describe(shelf, blocks, parts, first) && m in blocks
    ensures Backed(shelf, m)
    ensures forall id | id in Ids(blocks) :: id < first + |blocks|
  {
    var i :| 0 <= i < |blocks| && blocks[i] == m;
  }

  /** A committed file keeps the invariant, whatever the tree beyond its next id. */
  lemma CommittedKeepsStore(w: World, nextBlock: nat, w': World, id: nat, blocks: seq<BlockMeta>, parts: seq<seq<byte>>)
    requires StoreOk(w, nextBlock) && w'.tree.nextId == w.tree.nextId && id < w.tree.nextId
    requires w'.inodeBlocks == w.inodeBlocks[id := Ids(blocks)] && w'.metas == WithMetas(w.metas, blocks)
    requires w.shelf == w'.shelf && Describe(w'.shelf, blocks, parts, nextBlock)
    ensures StoreOk(w', nextBlock + |blocks|)
  {
    MetasKeys(w.metas, blocks);
    forall other | other in w'.inodeBlocks
      ensures ListOk(w', other)
    {
      assert other != id ==> ListOk(w, other);
    }
    forall m | m in w'.metas
      ensures MetaOk(w', nextBlock + |blocks|, m)
    {
      if m in Ids(blocks) {
        DescribedIsBacked(w'.shelf, blocks, parts, nextBlock, w'.metas[m]);
      } else {
        assert MetaOk(w, nextBlock, m);
      }
    }
  }

  /** The new file reads what was committed; every other inode reads as before. */
  lemma CommittedReads(w: World, nextBlock: nat, w': World, id: nat, blocks: seq<BlockMeta>, parts: seq<seq<byte>>,
                       other: nat, size: nat, buf: seq<byte>)
    requires StoreOk(w, nextBlock) && |blocks| > 0 && |Crc32.Concat(parts)| > 0
    requires w'.inodeBlocks == w.inodeBlocks[id := Ids(blocks)] && w'.metas == WithMetas(w.metas, blocks)
    requires w.shelf == w'.shelf && Describe(w'.shelf, blocks, parts, nextBlock)
    ensures other != id ==> ReadInode(w', other, size, buf) == ReadInode(w, other, size, buf)
    ensures ReadInode(w', id, TotalSize(blocks), buf) == FileReply(Ok, Crc32.Concat(parts))
  {
    TotalOfParts(w'.shelf, blocks, parts, nextBlock);
    AddedComeBack(w.metas, blocks);
    var out := Resize(buf, TotalSize(blocks));
    assert out[..0] + Crc32.Concat(parts) == Crc32.Concat(parts);
    AssembleFills(w'.shelf, blocks, parts, out, 0);
    if other != id {
      SameInodeRead(w, nextBlock, w', blocks, other, size, buf);
    }
  }

  // ---- both outcomes, for all paths ----

  /** No path reads differently. */
  ghost predicate SameReads(w: World, w': World) {
    forall q, buf :: ReadFile(w', q, buf) == ReadFile(w, q, buf)
  }

  /** `path` reads `content`, and every other path reads as before. */
  ghost predicate ReadsWith(w: World, w': World, path: string, content: seq<byte>) {
    forall q, buf :: ReadFile(w', q, buf) == if SamePath(q, path) then FileReply(Ok, content) else ReadFile(w, q, buf)
  }

  /** More stored blocks, and nothing else new, change no read. */
  lemma GrownShelf(w: World, nextBlock: nat, w': World)
    requires StoreOk(w, nextBlock) && w' == w.(shelf := w'.shelf) && KeepsAll(w.shelf, w'.shelf)
    ensures StoreOk(w', nextBlock) && SameReads(w, w')
  {
    forall id | id in w'.inodeBlocks
      ensures ListOk(w', id)
    {
      assert ListOk(w, id);
    }
    forall id | id in w'.metas
      ensures MetaOk(w', nextBlock, id)
    {
      assert MetaOk(w, nextBlock, id);
    }
    assert WithMetas(w.metas, []) == w.metas;
    forall q, buf
      ensures ReadFile(w', q, buf) == ReadFile(w, q, buf)
    {
      if Lookup(w.tree, q).Found? {
        SameInodeRead(w, nextBlock, w', [], Lookup(w.tree, q).inode.id, Lookup(w.tree, q).inode.size, buf);
      }
    }
  }

  lemma AbandonedOutcome(w: World, nextBlock: nat, w': World, nextBlock': nat, path: string, size: nat)
    requires StoreOk(w, nextBlock) && nextBlock <= nextBlock' && Abandoned(w, w', path, size)
    ensures IsTree(w'.tree) && StoreOk(w', nextBlock')
    ensures if size == 0 then ReadsWith(w, w', path, []) else SameReads(w, w')
  {
    AbandonedKeepsStore(w, nextBlock, w', nextBlock', path, size);
    forall q, buf
      ensures ReadFile(w', q, buf) == if size == 0 && SamePath(q, path) then FileReply(Ok, []) else ReadFile(w, q, buf)
    {
      AbandonedReads(w, nextBlock, w', path, size, q, buf);
    }
  }

  /** The next state of the list of a file just created and committed. */
  lemma FirstCommit(w: World, nextBlock: nat, w1: World, w': World, path: string, size: nat, blocks: seq<BlockMeta>,
                    mtime: nat, ctime: nat)
    requires StoreOk(w, nextBlock) && Abandoned(w, w1, path, size) && Committed(w1, w', w.tree.nextId, blocks, mtime, ctime)
    ensures w'.inodeBlocks == w1.inodeBlocks[w.tree.nextId := Ids(blocks)]
    ensures IsTree(w1.tree) && StoreOk(w1, nextBlock) && IsTree(w'.tree) && w'.tree.nextId == w1.tree.nextId == w.tree.nextId + 1
  {
    NothingListed(w, nextBlock);
    assert [] + Ids(blocks) == Ids(blocks);
    AbandonedKeepsStore(w, nextBlock, w1, nextBlock, path, size);
    var rank :| TreeInv(w1.tree, rank);
    TouchedIsTree(w1.tree, rank, w.tree.nextId, TotalSize(blocks), mtime, ctime);
  }

  lemma CommittedLookup(t: Tree, t1: Tree, t': Tree, path: string, size: nat, total: nat, mtime: nat, ctime: nat, q: string)
    requires Created(t, t1, path, size) && t' == Touched(t1, t.nextId, total, mtime, ctime)
    ensures if SamePath(q, path) then
              Lookup(t', q).Found? && Lookup(t', q).inode.id == t.nextId && Lookup(t', q).inode.size == total
            else Lookup(t', q) == Lookup(t, q) && (Lookup(t, q).Found? ==> Lookup(t, q).inode.id < t.nextId)
  {
    assert FindsCreated(t, t1, path, q);
    var rank :| TreeInv(t1, rank);
    TouchedLookup(t1, rank, t.nextId, total, mtime, ctime, q);
  }

  lemma CommittedOutcome(w: World, nextBlock: nat, w1: World, w': World, path: string, size: nat,
                         blocks: seq<BlockMeta>, parts: seq<seq<byte>>, mtime: nat, ctime: nat)
    requires StoreOk(w, nextBlock) && Abandoned(w, w1, path, size)
    requires |blocks| > 0 && |Crc32.Concat(parts)| > 0 && Describe(w1.shelf, blocks, parts, nextBlock)
    requires Committed(w1, w', w.tree.nextId, blocks, mtime, ctime)
    ensures IsTree(w'.tree) && StoreOk(w', nextBlock + |blocks|)
    ensures ReadsWith(w, w', path, Crc32.Concat(parts))
  {
    var id := w.tree.nextId;
    FirstCommit(w, nextBlock, w1, w', path, size, blocks, mtime, ctime);
    CommittedKeepsStore(w1, nextBlock, w', id, blocks, parts);
    forall q, buf
      ensures ReadFile(w', q, buf) == if SamePath(q, path) then FileReply(Ok, Crc32.Concat(parts)) else ReadFile(w, q, buf)
    {
      CommittedLookup(w.tree, w1.tree, w'.tree, path, size, TotalSize(blocks), mtime, ctime, q);
      AbandonedReads(w, nextBlock, w1, path, size, q, buf);
      assert FindsCreated(w.tree, w1.tree, path, q);
      match Lookup(w.tree, q) {
        case Found(inode) => CommittedReads(w1, nextBlock, w', id, blocks, parts, inode.id, inode.size, buf);
        case Missing(_) => CommittedReads(w1, nextBlock, w', id, blocks, parts, id, size, buf);
      }
    }
  }
}
