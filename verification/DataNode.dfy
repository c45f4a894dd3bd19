/** src/data/data_node.cpp:155-200: the index from block ids to locations, and what the disks hold for it. */
module DataNode {
  import opened Types
  import opened BlockRecord
  import opened DiskMachine
  import opened DiskManager
  import opened DiskPool

  /** Where a block is: what WriteBlock reports and ReadBlock asks for. */
  datatype Place = Place(diskId: nat, offset: nat)

  datatype BlockLocation = BlockLocation(place: Place, dataSize: nat)

  // ---- what the disks hold ----

  /** A disk holds at `p` what the shelf says. */
  ghost predicate OnShelf(cs: seq<Config>, ss: seq<State>, shelf: map<Place, Block>, p: Place) {
    && p in shelf && shelf[p].Fits()
    && |cs| == |ss| && p.diskId < |ss|
    && IsLiveAt(cs[p.diskId], ss[p.diskId].live, p.offset, |shelf[p].data|)
    && ss[p.diskId].live[cs[p.diskId].StartOf(p.offset)] == shelf[p]
  }

  ghost predicate ShelfOk(cs: seq<Config>, ss: seq<State>, shelf: map<Place, Block>) {
    && |cs| == |ss|
    && forall p {:trigger OnShelf(cs, ss, shelf, p)} | p in shelf :: OnShelf(cs, ss, shelf, p)
  }

  /** An acknowledged block takes a place that was free. */
  lemma WriteKeepsShelf(cs: seq<Config>, ss: seq<State>, ss': seq<State>, p: Place, block: Block, shelf: map<Place, Block>)
    requires ShelfOk(cs, ss, shelf) && block.Fits()
    requires |ss| == |ss'| && p.diskId < |ss| && ss' == ss[p.diskId := ss'[p.diskId]]
    requires Acknowledged(cs[p.diskId], ss[p.diskId], ss'[p.diskId], block, p.offset)
    ensures p !in shelf && ShelfOk(cs, ss', shelf[p := block])
  {
    assert p in shelf ==> OnShelf(cs, ss, shelf, p);
    forall q | q in shelf
      ensures OnShelf(cs, ss', shelf[p := block], q)
    {
      assert OnShelf(cs, ss, shelf, q);
    }
  }

  lemma FailureKeepsShelf(cs: seq<Config>, ss: seq<State>, ss': seq<State>, d: nat, shelf: map<Place, Block>)
    requires ShelfOk(cs, ss, shelf)
    requires |ss| == |ss'| && d < |ss| && ss' == ss[d := ss'[d]] && Unacknowledged(cs[d], ss[d], ss'[d])
    ensures ShelfOk(cs, ss', shelf)
  {
    forall q | q in shelf
      ensures OnShelf(cs, ss', shelf, q)
    {
      assert OnShelf(cs, ss, shelf, q);
    }
  }

  lemma DeleteKeepsShelf(cs: seq<Config>, ss: seq<State>, ss': seq<State>, p: Place, shelf: map<Place, Block>)
    requires ShelfOk(cs, ss, shelf) && p in shelf
    requires |ss| == |ss'| && p.diskId < |ss| && ss' == ss[p.diskId := ss'[p.diskId]]
    requires Deleted(cs[p.diskId], ss[p.diskId], ss'[p.diskId], cs[p.diskId].StartOf(p.offset))
    ensures ShelfOk(cs, ss', shelf - {p})
  {
    assert OnShelf(cs, ss, shelf, p);
    forall q | q in shelf && q != p
      ensures OnShelf(cs, ss', shelf - {p}, q)
    {
      assert OnShelf(cs, ss, shelf, q);
    }
  }

  lemma ShelvedReadsBack(cs: seq<Config>, ss: seq<State>, shelf: map<Place, Block>, p: Place)
    requires ShelfOk(cs, ss, shelf) && InvOfAll(cs, ss) && p in shelf
    ensures p.diskId < |ss|
    ensures ReadFrom(ss[p.diskId].dev, p.offset) == ReadOk(shelf[p].id, shelf[p].crc, shelf[p].data)
  {
    assert OnShelf(cs, ss, shelf, p) && DiskNumber(p.diskId);
    LiveReadsBack(cs[p.diskId], ss[p.diskId], cs[p.diskId].StartOf(p.offset));
  }

  /** Whatever steps the disks take, writes cut off by a crash and the restart after it included, they keep the shelf as long
    * as nothing is deleted. */
  lemma SurvivalKeepsShelf(cs: seq<Config>, ss: seq<State>, ss': seq<State>, shelf: map<Place, Block>)
    requires ShelfOk(cs, ss, shelf) && InvOfAll(cs, ss) && AllSurvive(cs, ss, ss')
    ensures ShelfOk(cs, ss', shelf)
  {
    forall p | p in shelf
      ensures OnShelf(cs, ss', shelf, p)
    {
      assert OnShelf(cs, ss, shelf, p) && DiskNumber(p.diskId);
      SurvivesKeeps(cs[p.diskId], ss[p.diskId], ss'[p.diskId]);
    }
  }

  // ---- conservation ----

  /** The allocated blocks of all disks. */
  function Used(cs: seq<Config>, ss: seq<State>): int
    requires |cs| == |ss|
  {
    if ss == [] then 0
    else Used(cs[..|cs| - 1], ss[..|ss| - 1]) + UsedOf(cs[|cs| - 1], ss[|ss| - 1])
  }

  lemma {:induction false} UsedUpdate(cs: seq<Config>, ss: seq<State>, d: nat, s: State)
    requires d < |cs| == |ss|
    ensures Used(cs, ss[d := s]) == Used(cs, ss) - UsedOf(cs[d], ss[d]) + UsedOf(cs[d], s)
    decreases |ss|
  {
    var last := |ss| - 1;
    if d == last {
      assert ss[d := s][..last] == ss[..last];
    } else {
      assert ss[d := s][..last] == ss[..last][d := s];
      UsedUpdate(cs[..last], ss[..last], d, s);
    }
  }

  /** The physical blocks the index accounts for. */
  ghost function Indexed(locs: map<nat, BlockLocation>): nat {
    if locs == map[] then 0
    else
      var id :| id in locs;
      PhysicalBlocks(locs[id].dataSize) + Indexed(locs - {id})
  }

  lemma {:induction false} IndexedRemove(locs: map<nat, BlockLocation>, id: nat)
    requires id in locs
    ensures Indexed(locs) == PhysicalBlocks(locs[id].dataSize) + Indexed(locs - {id})
    decreases |locs|
  {
    var picked :| picked in locs && Indexed(locs) == PhysicalBlocks(locs[picked].dataSize) + Indexed(locs - {picked});
    if picked != id {
      IndexedRemove(locs - {picked}, id);
      IndexedRemove(locs - {id}, picked);
      assert locs - {picked} - {id} == locs - {id} - {picked};
    }
  }

  lemma IndexedInsert(locs: map<nat, BlockLocation>, id: nat, loc: BlockLocation)
    ensures Indexed(locs[id := loc]) ==
            Indexed(locs) + PhysicalBlocks(loc.dataSize) - if id in locs then PhysicalBlocks(locs[id].dataSize) else 0
  {
    IndexedRemove(locs[id := loc], id);
    if id in locs {
      IndexedRemove(locs, id);
      assert locs[id := loc] - {id} == locs - {id};
    } else {
      assert locs[id := loc] - {id} == locs;
    }
  }

  // ---- the index ----

  /** The index leads to a stored copy of the block. */
  ghost predicate Entry(shelf: map<Place, Block>, id: nat, loc: BlockLocation) {
    loc.place in shelf && shelf[loc.place].id == id && |shelf[loc.place].data| == loc.dataSize
  }

  ghost predicate IndexOk(shelf: map<Place, Block>, locs: map<nat, BlockLocation>) {
    forall id {:trigger Entry(shelf, id, locs[id])} | id in locs :: Entry(shelf, id, locs[id])
  }

  /** The disks' allocated blocks are those of the index, and the `lost` ones of copies it no longer tracks. */
  ghost predicate Balanced(cs: seq<Config>, ss: seq<State>, locs: map<nat, BlockLocation>, lost: nat) {
    |cs| == |ss| && Used(cs, ss) == Indexed(locs) + lost
  }

  /** The physical blocks a write of block `id` takes out of the index's sight: those of its former copy. */
  function Superseded(locs: map<nat, BlockLocation>, id: nat): (n: nat)
    ensures id !in locs ==> n == 0
  {
    if id in locs then PhysicalBlocks(locs[id].dataSize) else 0
  }

  lemma WriteKeepsIndex(p: Place, block: Block, shelf: map<Place, Block>, locs: map<nat, BlockLocation>)
    requires IndexOk(shelf, locs) && p !in shelf
    ensures IndexOk(shelf[p := block], locs[block.id := BlockLocation(p, |block.data|)])
  {
    forall id | id in locs
      ensures Entry(shelf[p := block], id, locs[id])
    {
      assert Entry(shelf, id, locs[id]);
    }
  }

  lemma DeleteKeepsIndex(id: nat, shelf: map<Place, Block>, locs: map<nat, BlockLocation>)
    requires IndexOk(shelf, locs) && id in locs
    ensures IndexOk(shelf - {locs[id].place}, locs - {id})
  {
    assert Entry(shelf, id, locs[id]);
    forall other | other in locs && other != id
      ensures Entry(shelf - {locs[id].place}, other, locs[other])
    {
      assert Entry(shelf, other, locs[other]);
    }
  }

  lemma WriteKeepsBalance(cs: seq<Config>, ss: seq<State>, ss': seq<State>, p: Place, block: Block,
                          locs: map<nat, BlockLocation>, lost: nat)
    requires Balanced(cs, ss, locs, lost)
    requires |ss| == |ss'| && p.diskId < |ss| && ss' == ss[p.diskId := ss'[p.diskId]]
    requires Acknowledged(cs[p.diskId], ss[p.diskId], ss'[p.diskId], block, p.offset)
    ensures Balanced(cs, ss', locs[block.id := BlockLocation(p, |block.data|)], lost + Superseded(locs, block.id))
  {
    WriteUses(cs[p.diskId], ss[p.diskId], ss'[p.diskId], block, p.offset);
    UsedUpdate(cs, ss, p.diskId, ss'[p.diskId]);
    IndexedInsert(locs, block.id, BlockLocation(p, |block.data|));
  }

  lemma FailureKeepsBalance(cs: seq<Config>, ss: seq<State>, ss': seq<State>, d: nat, locs: map<nat, BlockLocation>, lost: nat)
    requires Balanced(cs, ss, locs, lost)
    requires |ss| == |ss'| && d < |ss| && ss' == ss[d := ss'[d]] && Unacknowledged(cs[d], ss[d], ss'[d])
    ensures Balanced(cs, ss', locs, lost)
  {
    FailureUses(cs[d], ss[d], ss'[d]);
    UsedUpdate(cs, ss, d, ss'[d]);
  }

  lemma DeleteKeepsBalance(cs: seq<Config>, ss: seq<State>, ss': seq<State>, id: nat,
                           shelf: map<Place, Block>, locs: map<nat, BlockLocation>, lost: nat)
    requires ShelfOk(cs, ss, shelf) && IndexOk(shelf, locs) && id in locs && Balanced(cs, ss, locs, lost) && InvOfAll(cs, ss)
    requires var p := locs[id].place;
             && |ss| == |ss'| && p.diskId < |ss| && ss' == ss[p.diskId := ss'[p.diskId]]
             && Deleted(cs[p.diskId], ss[p.diskId], ss'[p.diskId], cs[p.diskId].StartOf(p.offset))
    ensures Balanced(cs, ss', locs - {id}, lost)
  {
    var p := locs[id].place;
    assert Entry(shelf, id, locs[id]);
    assert OnShelf(cs, ss, shelf, p) && DiskNumber(p.diskId);
    DeleteFrees(cs[p.diskId], ss[p.diskId], ss'[p.diskId], cs[p.diskId].StartOf(p.offset));
    UsedUpdate(cs, ss, p.diskId, ss'[p.diskId]);
    IndexedRemove(locs, id);
  }

  lemma DeleteKeepsAll(cs: seq<Config>, ss: seq<State>, ss': seq<State>, id: nat,
                       shelf: map<Place, Block>, locs: map<nat, BlockLocation>, lost: nat)
    requires ShelfOk(cs, ss, shelf) && IndexOk(shelf, locs) && id in locs && Balanced(cs, ss, locs, lost) && InvOfAll(cs, ss)
    requires var p := locs[id].place;
             && |ss| == |ss'| && p.diskId < |ss| && ss' == ss[p.diskId := ss'[p.diskId]]
             && Deleted(cs[p.diskId], ss[p.diskId], ss'[p.diskId], cs[p.diskId].StartOf(p.offset))
    ensures ShelfOk(cs, ss', shelf - {locs[id].place}) && IndexOk(shelf - {locs[id].place}, locs - {id})
    ensures Balanced(cs, ss', locs - {id}, lost)
  {
    assert Entry(shelf, id, locs[id]);
    DeleteKeepsShelf(cs, ss, ss', locs[id].place, shelf);
    DeleteKeepsBalance(cs, ss, ss', id, shelf, locs, lost);
    DeleteKeepsIndex(id, shelf, locs);
  }

  /** From a balanced index, a write keeps allocated blocks equal to indexed ones exactly when its block id is new. */
  lemma WriteConservesExactly(cs: seq<Config>, ss: seq<State>, ss': seq<State>, p: Place, block: Block,
                              shelf: map<Place, Block>, locs: map<nat, BlockLocation>)
    requires |cs| == |ss| && Used(cs, ss) == Indexed(locs) && ShelfOk(cs, ss, shelf) && IndexOk(shelf, locs)
    requires |ss| == |ss'| && p.diskId < |ss| && ss' == ss[p.diskId := ss'[p.diskId]]
    requires Acknowledged(cs[p.diskId], ss[p.diskId], ss'[p.diskId], block, p.offset)
    ensures Used(cs, ss') == Indexed(locs[block.id := BlockLocation(p, |block.data|)]) <==> block.id !in locs
  {
    WriteKeepsBalance(cs, ss, ss', p, block, locs, 0);
    if block.id in locs {
      assert Entry(shelf, block.id, locs[block.id]);
      assert OnShelf(cs, ss, shelf, locs[block.id].place);
    }
  }

  lemma DiskAdded(cs: seq<Config>, ss: seq<State>, cs': seq<Config>, ss': seq<State>,
                  shelf: map<Place, Block>, locs: map<nat, BlockLocation>, lost: nat)
    requires ShelfOk(cs, ss, shelf) && Balanced(cs, ss, locs, lost)
    requires |cs'| == |ss'| == |cs| + 1 && cs'[..|cs|] == cs && ss'[..|ss|] == ss
    requires UsedOf(cs'[|cs|], ss'[|ss|]) == 0
    ensures ShelfOk(cs', ss', shelf) && Balanced(cs', ss', locs, lost)
  {
    forall p | p in shelf
      ensures OnShelf(cs', ss', shelf, p)
    {
      assert OnShelf(cs, ss, shelf, p);
      assert cs'[..|cs|][p.diskId] == cs'[p.diskId] && ss'[..|ss|][p.diskId] == ss'[p.diskId];
    }
  }

  /** Always true; names a write where the quantifier of Answers is to be instantiated with it. */
  predicate Asked(b: Block, accepted: nat) {
    true
  }

  /** The pool answers a write of `block` with `status`; PoolStatus, kept out of sight of the callers. */
  ghost predicate Answers(cs: seq<Config>, ss: seq<State>, block: Block, accepted: nat, status: Status) {
    forall b, n {:trigger Asked(b, n)} | Asked(b, n) && b == block && n == accepted :: status == PoolStatus(cs, ss, b, n)
  }

  lemma AnswersExactly(cs: seq<Config>, ss: seq<State>, block: Block, accepted: nat, status: Status)
    ensures Answers(cs, ss, block, accepted, status) <==> status == PoolStatus(cs, ss, block, accepted)
  {
    assert Asked(block, accepted);
  }

  lemma WriteKeepsAll(cs: seq<Config>, ss: seq<State>, ss': seq<State>, p: Place, block: Block,
                      shelf: map<Place, Block>, locs: map<nat, BlockLocation>, lost: nat)
    requires ShelfOk(cs, ss, shelf) && IndexOk(shelf, locs) && Balanced(cs, ss, locs, lost) && block.Fits()
    requires |ss| == |ss'| && p.diskId < |ss| && ss' == ss[p.diskId := ss'[p.diskId]]
    requires Acknowledged(cs[p.diskId], ss[p.diskId], ss'[p.diskId], block, p.offset)
    ensures p !in shelf && ShelfOk(cs, ss', shelf[p := block])
    ensures IndexOk(shelf[p := block], locs[block.id := BlockLocation(p, |block.data|)])
    ensures Balanced(cs, ss', locs[block.id := BlockLocation(p, |block.data|)], lost + Superseded(locs, block.id))
  {
    WriteKeepsShelf(cs, ss, ss', p, block, shelf);
    WriteKeepsIndex(p, block, shelf, locs);
    WriteKeepsBalance(cs, ss, ss', p, block, locs, lost);
  }

  lemma FailureKeepsAll(cs: seq<Config>, ss: seq<State>, ss': seq<State>, d: nat, block: Block, accepted: nat,
                        shelf: map<Place, Block>, locs: map<nat, BlockLocation>, lost: nat)
    requires ShelfOk(cs, ss, shelf) && Balanced(cs, ss, locs, lost)
    requires |ss| == |ss'| && d < |ss| && ss' == ss[d := ss'[d]] && Unacknowledged(cs[d], ss[d], ss'[d])
    ensures ShelfOk(cs, ss', shelf) && Balanced(cs, ss', locs, lost)
    ensures PoolStatus(cs, ss', block, accepted) == PoolStatus(cs, ss, block, accepted)
  {
    FailureKeepsShelf(cs, ss, ss', d, shelf);
    FailureKeepsBalance(cs, ss, ss', d, locs, lost);
    FailureKeepsStatus(cs, ss, ss', d, block, accepted);
  }

  /** Disk `i` was reopened and then recovered. */
  ghost predicate Restarted(cs: seq<Config>, ss: seq<State>, ss1: seq<State>, ss': seq<State>, i: nat) {
    && i < |cs| == |ss| == |ss1| == |ss'|
    && ss[i].mem.Up? && Reopened(cs[i], ss[i], ss1[i]) && Recovered(cs[i], ss1[i], ss'[i])
  }

  /** A restart keeps the shelf and the used blocks, but the index is gone: every indexed block becomes a lost one. */
  lemma RestartKeepsAll(cs: seq<Config>, ss: seq<State>, ss1: seq<State>, ss': seq<State>,
                        shelf: map<Place, Block>, locs: map<nat, BlockLocation>, lost: nat)
    requires ShelfOk(cs, ss, shelf) && Balanced(cs, ss, locs, lost) && |cs| == |ss| == |ss1| == |ss'|
    requires forall i | 0 <= i < |ss| :: Restarted(cs, ss, ss1, ss', i)
    ensures ShelfOk(cs, ss', shelf) && IndexOk(shelf, map[]) && Balanced(cs, ss', map[], lost + Indexed(locs))
  {
    forall p | p in shelf
      ensures OnShelf(cs, ss', shelf, p)
    {
      assert OnShelf(cs, ss, shelf, p) && Restarted(cs, ss, ss1, ss', p.diskId);
    }
    forall i | 0 <= i < |ss|
      ensures UsedOf(cs[i], ss'[i]) == UsedOf(cs[i], ss[i])
    {
      assert Restarted(cs, ss, ss1, ss', i);
    }
    SameUsed(cs, ss, ss');
  }

  lemma {:induction false} SameUsed(cs: seq<Config>, ss: seq<State>, ss': seq<State>)
    requires |cs| == |ss| == |ss'|
    requires forall i | 0 <= i < |ss| :: UsedOf(cs[i], ss'[i]) == UsedOf(cs[i], ss[i])
    ensures Used(cs, ss') == Used(cs, ss)
    decreases |ss|
  {
    if ss != [] {
      SameUsed(cs[..|cs| - 1], ss[..|ss| - 1], ss'[..|ss'| - 1]);
    }
  }

  /** What such steps add to the used blocks of all disks: acknowledged blocks the node never heard of, and leaks. */
  ghost function GainedByAll(ss: seq<State>, ss': seq<State>): nat
    requires |ss| == |ss'|
  {
    if ss == [] then 0
    else GainedByAll(ss[..|ss| - 1], ss'[..|ss'| - 1]) + Gained(ss[|ss| - 1], ss'[|ss'| - 1])
  }

  ghost predicate AllIdle(ss: seq<State>) {
    forall i | 0 <= i < |ss| :: ss[i].mem.Up? && ss[i].mem.phase.Idle?
  }

  lemma {:induction false} UsedGained(cs: seq<Config>, ss: seq<State>, ss': seq<State>)
    requires |cs| == |ss| == |ss'|
    requires forall i | 0 <= i < |ss| :: UsedOf(cs[i], ss'[i]) == UsedOf(cs[i], ss[i]) + Gained(ss[i], ss'[i])
    ensures Used(cs, ss') == Used(cs, ss) + GainedByAll(ss, ss')
    decreases |ss|
  {
    if ss != [] {
      UsedGained(cs[..|cs| - 1], ss[..|ss| - 1], ss'[..|ss'| - 1]);
    }
  }

  lemma {:induction false} NothingGained(ss: seq<State>, ss': seq<State>, cut: Cut)
    requires |ss| == |ss'| && !cut.InSave? && forall i | 0 <= i < |ss| :: SameBlocks(ss[i], ss'[i], cut)
    ensures GainedByAll(ss, ss') == 0
    decreases |ss|
  {
    if ss != [] {
      var last := |ss| - 1;
      assert SameBlocks(ss[last], ss'[last], cut);
      assert ss'[last].live - ss[last].live.Keys == map[] && ss'[last].leaked - ss[last].leaked == {};
      NothingGained(ss[..last], ss'[..last], cut);
    }
  }

  /** A restart after a cut-off operation keeps the shelf; lost from sight are the blocks that were indexed, and what the
    * operation left behind. */
  lemma SurvivalKeepsAll(cs: seq<Config>, ss: seq<State>, ss': seq<State>,
                         shelf: map<Place, Block>, locs: map<nat, BlockLocation>, lost: nat)
    requires ShelfOk(cs, ss, shelf) && Balanced(cs, ss, locs, lost) && InvOfAll(cs, ss)
    requires AllSurvive(cs, ss, ss') && AllIdle(ss) && AllIdle(ss')
    ensures ShelfOk(cs, ss', shelf) && IndexOk(shelf, map[])
    ensures Balanced(cs, ss', map[], lost + Indexed(locs) + GainedByAll(ss, ss'))
  {
    SurvivalKeepsShelf(cs, ss, ss', shelf);
    forall i | 0 <= i < |ss|
      ensures UsedOf(cs[i], ss'[i]) == UsedOf(cs[i], ss[i]) + Gained(ss[i], ss'[i])
    {
      assert DiskNumber(i);
      RunUses(cs[i], ss[i], ss'[i]);
    }
    UsedGained(cs, ss, ss');
  }

  class DataNode {
    const pool: DiskPool
    var locations: map<nat, BlockLocation>
    ghost var shelf: map<Place, Block>      // every block the disks hold, tracked or not
    ghost var lost: nat                     // physical blocks of copies no longer tracked

    ghost predicate Valid()
      reads this, pool, pool.footprint
    {
      && pool.Valid() && this !in pool.footprint
      && ShelfOk(pool.configs, pool.states, shelf)
      && IndexOk(shelf, locations)
      && Balanced(pool.configs, pool.states, locations, lost)
    }

    constructor ()
      ensures Valid() && fresh(pool) && locations == map[] && shelf == map[] && lost == 0
      ensures pool.footprint == {}
    {
      pool := new DiskPool();
      locations, shelf, lost := map[], map[], 0;
    }

    method AddDisk(c: Config)
      requires Valid() && c.Sound() && c.placement.AsWritten?
      modifies pool
      ensures Valid() && fresh(pool.footprint - old(pool.footprint))
      ensures |pool.states| == |old(pool.states)| + 1
    {
      ghost var cs, ss := pool.configs, pool.states;
      pool.AddDisk(c);
      DiskAdded(cs, ss, pool.configs, pool.states, shelf, locations, lost);
    }

    /** WriteBlock, src/data/data_node.cpp:155-175. */
    method WriteBlock(block: Block, accepted: nat) returns (status: Status, place: Place)
      requires Valid() && block.Fits()
      modifies this, pool`states, pool.footprint
      ensures Valid() && |pool.states| == |old(pool.states)| && pool.configs == old(pool.configs)
      ensures Answers(pool.configs, old(pool.states), block, accepted, status)
      ensures status != Ok ==> Answers(pool.configs, pool.states, block, accepted, status)
      ensures status == Ok ==>
                && place !in old(shelf) && shelf == old(shelf)[place := block]
                && locations == old(locations)[block.id := BlockLocation(place, |block.data|)]
                && lost == old(lost) + Superseded(old(locations), block.id)
                && place.diskId < |pool.states| && Best(pool.configs, old(pool.states), place.diskId)
      ensures status != Ok ==> shelf == old(shelf) && locations == old(locations) && lost == old(lost)
    {
      ghost var cs, ss := pool.configs, pool.states;
      var diskId, offset;
      status, diskId, offset := pool.WriteBlock(block, accepted);
      place := Place(diskId, offset);
      AnswersExactly(cs, ss, block, accepted, status);
      AnswersExactly(cs, pool.states, block, accepted, status);
      if status != Ok {
        if diskId < |ss| {
          FailureKeepsAll(cs, ss, pool.states, diskId, block, accepted, shelf, locations, lost);
        }
        return;
      }
      WriteKeepsAll(cs, ss, pool.states, place, block, shelf, locations, lost);
      Track(block, place);
    }

    method Track(block: Block, place: Place)
      requires pool.Valid() && this !in pool.footprint
      requires ShelfOk(pool.configs, pool.states, shelf[place := block])
      requires IndexOk(shelf[place := block], locations[block.id := BlockLocation(place, |block.data|)])
      requires Balanced(pool.configs, pool.states, locations[block.id := BlockLocation(place, |block.data|)],
                        lost + Superseded(locations, block.id))
      modifies this
      ensures Valid() && shelf == old(shelf)[place := block]
      ensures locations == old(locations)[block.id := BlockLocation(place, |block.data|)]
      ensures lost == old(lost) + Superseded(old(locations), block.id)
    {
      lost, shelf := lost + Superseded(locations, block.id), shelf[place := block];
      locations := locations[block.id := BlockLocation(place, |block.data|)];
    }

    /** ReadBlock, src/data/data_node.cpp:177-182. */
    method ReadBlock(place: Place) returns (status: Status, r: ReadResult)
      requires Valid()
      ensures place in shelf ==> status == Ok && r == ReadOk(shelf[place].id, shelf[place].crc, shelf[place].data)
      ensures place.diskId >= |pool.states| ==> status == NotFound
      ensures place.diskId < |pool.states| ==> r == ReadFrom(pool.states[place.diskId].dev, place.offset)
      ensures place.diskId < |pool.states| ==>
                status == match r case ReadOk(_, _, _) => Ok case ReadFailed(bad) => if bad then Internal else IOError
    {
      status, r := pool.ReadBlock(place.diskId, place.offset);
      if place in shelf {
        pool.AllKeepInvariant();
        ShelvedReadsBack(pool.configs, pool.states, shelf, place);
      }
    }

    /** DeleteBlock, src/data/data_node.cpp:184-200. */
    method DeleteBlock(id: nat) returns (status: Status)
      requires Valid()
      modifies this, pool`states, pool.footprint
      ensures Valid() && lost == old(lost)
      ensures status == if id in old(locations) then Ok else NotFound
      ensures locations == old(locations) - {id}
      ensures shelf == if status == Ok then old(shelf) - {old(locations)[id].place} else old(shelf)
    {
      if id !in locations {
        return NotFound;
      }
      var loc := locations[id];
      ghost var cs, ss := pool.configs, pool.states;
      assert Entry(shelf, id, loc) && OnShelf(cs, ss, shelf, loc.place);
      pool.AllKeepInvariant();
      status := pool.DeleteBlock(loc.place.diskId, loc.place.offset, loc.dataSize);
      DeleteKeepsAll(cs, ss, pool.states, id, shelf, locations, lost);
      locations, shelf := locations - {id}, shelf - {loc.place};
    }

    /** The process ends between operations, and Start opens and recovers every disk, src/data/data_node.cpp:19-66: nothing
      * stored is lost, but nothing leads the node to it any more, as the index is only kept in memory. */
    method Restart()
      requires Valid()
      modifies this, pool`states, pool`regions, pool`footprint, pool.footprint
      ensures Valid() && fresh(pool.footprint - old(pool.footprint))
      ensures shelf == old(shelf) && locations == map[] && lost == old(lost) + Indexed(old(locations))
      ensures |pool.states| == |old(pool.states)| && pool.configs == old(pool.configs)
    {
      ghost var ss := pool.states;
      pool.AllIdle();
      pool.ReopenAll();
      ghost var ss1 := pool.states;
      pool.RecoverAll();
      assert forall i | 0 <= i < |ss| :: Restarted(pool.configs, ss, ss1, pool.states, i);
      RestartKeepsAll(pool.configs, ss, ss1, pool.states, shelf, locations, lost);
      Forget(0);
    }

    /** The process ends inside WriteBlock, as far as `cut` says, and Start opens and recovers every disk: still nothing stored
      * is lost, and `lost` counts what the write left behind. */
    method WriteCutOff(block: Block, cut: Cut)
      requires Valid() && block.Fits()
      modifies this, pool`states, pool`regions, pool`footprint, pool.footprint
      ensures Valid() && fresh(pool.footprint - old(pool.footprint))
      ensures shelf == old(shelf) && locations == map[]
      ensures |pool.states| == |old(pool.states)| && pool.configs == old(pool.configs)
      ensures lost == old(lost) + Indexed(old(locations)) + GainedByAll(old(pool.states), pool.states)
      ensures !cut.InSave? ==> lost == old(lost) + Indexed(old(locations))
    {
      ghost var cs, ss := pool.configs, pool.states;
      pool.AllIdle();
      pool.AllKeepInvariant();
      pool.WriteCutOff(block, cut);
      pool.AllIdle();
      SurvivalKeepsAll(cs, ss, pool.states, shelf, locations, lost);
      if !cut.InSave? {
        NothingGained(ss, pool.states, cut);
      }
      Forget(GainedByAll(ss, pool.states));
    }

    method Forget(ghost gained: nat)
      requires pool.Valid() && this !in pool.footprint
      requires ShelfOk(pool.configs, pool.states, shelf) && IndexOk(shelf, map[])
      requires Balanced(pool.configs, pool.states, map[], lost + Indexed(locations) + gained)
      modifies this
      ensures Valid() && shelf == old(shelf) && locations == map[] && lost == old(lost) + Indexed(old(locations)) + gained
    {
      lost := lost + Indexed(locations) + gained;
      locations := map[];
    }
  }
}
