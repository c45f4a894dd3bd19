/** src/meta/block_map.cpp and src/meta/block_allocator.cpp: the blocks of each file, and fresh block ids. */
module BlockMap {
  import opened Types

  /** `diskId` is the segment_id field, which carries the disk the data node chose. */
  datatype BlockMeta = BlockMeta(id: nat, level: BlkLevel, size: nat, crc: bv32, diskId: nat, offset: nat)

  /** `metas` with each of `blocks` recorded under its id, later ones over earlier ones. */
  function WithMetas(metas: map<nat, BlockMeta>, blocks: seq<BlockMeta>): map<nat, BlockMeta> {
    if blocks == [] then metas
    else WithMetas(metas, blocks[..|blocks| - 1])[blocks[|blocks| - 1].id := blocks[|blocks| - 1]]
  }

  function Ids(blocks: seq<BlockMeta>): (ids: seq<nat>)
    ensures |ids| == |blocks|
    ensures forall i | 0 <= i < |ids| :: ids[i] == blocks[i].id
  {
    seq(|blocks|, i requires 0 <= i < |blocks| => blocks[i].id)
  }

  /** The recorded blocks among `ids`, in order. */
  function MetasOf(metas: map<nat, BlockMeta>, ids: seq<nat>): seq<BlockMeta> {
    if ids == [] then []
    else
      var id := ids[|ids| - 1];
      MetasOf(metas, ids[..|ids| - 1]) + if id in metas then [metas[id]] else []
  }

  lemma {:induction false} MetasElsewhere(metas: map<nat, BlockMeta>, blocks: seq<BlockMeta>, id: nat)
    requires forall i | 0 <= i < |blocks| :: blocks[i].id != id
    ensures id in WithMetas(metas, blocks) <==> id in metas
    ensures id in metas ==> WithMetas(metas, blocks)[id] == metas[id]
  {
    if blocks != [] {
      MetasElsewhere(metas, blocks[..|blocks| - 1], id);
    }
  }

  /** The list is gone through id by id: nothing is dropped but unrecorded ids, and the order is kept. */
  lemma {:induction false} MetasJoin(metas: map<nat, BlockMeta>, a: seq<nat>, b: seq<nat>)
    ensures MetasOf(metas, a + b) == MetasOf(metas, a) + MetasOf(metas, b)
    decreases |b|
  {
    if b == [] {
      assert a + b == a;
    } else {
      var m := |b| - 1;
      assert (a + b)[..|a + b| - 1] == a + b[..m] && (a + b)[|a + b| - 1] == b[m];
      MetasJoin(metas, a, b[..m]);
    }
  }

  lemma MetasOfOne(metas: map<nat, BlockMeta>, id: nat)
    ensures MetasOf(metas, [id]) == if id in metas then [metas[id]] else []
  {
    assert [id][..0] == [];
  }

  /** Files whose blocks are not among the added ones keep their lists. */
  lemma {:induction false} OtherFileKept(metas: map<nat, BlockMeta>, blocks: seq<BlockMeta>, ids: seq<nat>)
    requires forall i, j | 0 <= i < |ids| && 0 <= j < |blocks| :: ids[i] != blocks[j].id
    ensures MetasOf(WithMetas(metas, blocks), ids) == MetasOf(metas, ids)
  {
    if ids != [] {
      OtherFileKept(metas, blocks, ids[..|ids| - 1]);
      MetasElsewhere(metas, blocks, ids[|ids| - 1]);
    }
  }

  /** Blocks with distinct ids come back in the order in which they were added. */
  lemma {:induction false} AddedComeBack(metas: map<nat, BlockMeta>, blocks: seq<BlockMeta>)
    requires forall i, j | 0 <= i < j < |blocks| :: blocks[i].id != blocks[j].id
    ensures MetasOf(WithMetas(metas, blocks), Ids(blocks)) == blocks
  {
    if blocks != [] {
      var front, last := blocks[..|blocks| - 1], blocks[|blocks| - 1];
      AddedComeBack(metas, front);
      OtherFileKept(WithMetas(metas, front), [last], Ids(front));
      assert [last][..0] == [];
      assert WithMetas(WithMetas(metas, front), [last]) == WithMetas(metas, blocks);
      assert Ids(blocks)[..|blocks| - 1] == Ids(front);
      assert front + [last] == blocks;
    }
  }

  class BlockMap {
    var inodeBlocks: map<nat, seq<nat>>
    var blockMetas: map<nat, BlockMeta>

    constructor ()
      ensures inodeBlocks == map[] && blockMetas == map[]
    {
      inodeBlocks, blockMetas := map[], map[];
    }

    /** AddBlocks, src/meta/block_map.cpp:6-16: the ids are appended to the file's list. */
    method AddBlocks(inodeId: nat, blocks: seq<BlockMeta>) returns (status: Status)
      modifies this
      ensures status == Ok
      ensures var before := if inodeId in old(inodeBlocks) then old(inodeBlocks)[inodeId] else [];
              inodeBlocks == old(inodeBlocks)[inodeId := before + Ids(blocks)]
      ensures blockMetas == WithMetas(old(blockMetas), blocks)
    {
      var ids := if inodeId in inodeBlocks then inodeBlocks[inodeId] else [];
      ghost var before := ids;
      for i := 0 to |blocks|
        invariant ids == before + Ids(blocks[..i])
        invariant blockMetas == WithMetas(old(blockMetas), blocks[..i])
        invariant inodeBlocks == old(inodeBlocks)
      {
        assert blocks[..i + 1][..i] == blocks[..i] && blocks[..i + 1][i] == blocks[i];
        assert Ids(blocks[..i + 1]) == Ids(blocks[..i]) + [blocks[i].id];
        ids := ids + [blocks[i].id];
        blockMetas := blockMetas[blocks[i].id := blocks[i]];
      }
      assert blocks[..|blocks|] == blocks;
      inodeBlocks := inodeBlocks[inodeId := ids];
      status := Ok;
    }

    /** GetBlocks, src/meta/block_map.cpp:18-37. */
    method GetBlocks(inodeId: nat) returns (status: Status, blocks: seq<BlockMeta>)
      ensures status == if inodeId in inodeBlocks then Ok else NotFound
      ensures status == Ok ==> blocks == MetasOf(blockMetas, inodeBlocks[inodeId])
    {
      blocks := [];
      if inodeId !in inodeBlocks {
        return NotFound, blocks;
      }
      var ids := inodeBlocks[inodeId];
      for i := 0 to |ids|
        invariant blocks == MetasOf(blockMetas, ids[..i])
      {
        assert ids[..i + 1][..i] == ids[..i];
        if ids[i] in blockMetas {
          blocks := blocks + [blockMetas[ids[i]]];
        }
      }
      assert ids[..|ids|] == ids;
      status := Ok;
    }
  }

  class BlockAllocator {
    var nextBlockId: nat

    constructor ()
      ensures nextBlockId == 1
    {
      nextBlockId := 1;
    }

    /** Allocate, src/meta/block_allocator.cpp:8-31: consecutive fresh ids, if some data node is online. */
    method Allocate(count: nat, level: BlkLevel, online: bool) returns (status: Status, blocks: seq<BlockMeta>)
      modifies this
      ensures status == if online then Ok else NoSpace
      ensures nextBlockId == old(nextBlockId) + if online then count else 0
      ensures online ==> |blocks| == count
      ensures online ==> forall i | 0 <= i < count ::
                blocks[i] == BlockMeta(old(nextBlockId) + i, level, BlockLevelSize(level), 0, 1, 0)
    {
      blocks := [];
      if !online {
        return NoSpace, blocks;
      }
      for i := 0 to count
        invariant nextBlockId == old(nextBlockId) + i && |blocks| == i
        invariant forall j | 0 <= j < i :: blocks[j] == BlockMeta(old(nextBlockId) + j, level, BlockLevelSize(level), 0, 1, 0)
      {
        blocks := blocks + [BlockMeta(nextBlockId, level, BlockLevelSize(level), 0, 1, 0)];
        nextBlockId := nextBlockId + 1;
      }
      status := Ok;
    }
  }
}
