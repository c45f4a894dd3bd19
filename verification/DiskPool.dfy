/** src/data/disk_pool.cpp: several disks as one pool; a write goes to the disk with the most free blocks. */
module DiskPool {
  import opened Bytes
  import opened Types
  import opened Bitmap
  import opened BlockRecord
  import opened DiskMachine
  import opened DiskManager

  /** Free blocks of a disk that is up. */
  function FreeOf(c: Config, s: State): nat {
    if WellSized(c, s) && s.mem.Up? then CountFree(Bits(s.mem.bitmap, c.Blocks())) else 0
  }

  function UsedOf(c: Config, s: State): int {
    c.Blocks() - FreeOf(c, s)
  }

  /** Every block of a disk just formatted and opened is free. */
  lemma FormattedIsFree(c: Config, s: State, s': State)
    requires c.Sound() && Init(c, s) && ReopenStep(c, s, s')
    ensures UsedOf(c, s') == 0
  {
    assert Bits(s'.mem.bitmap, c.Blocks()) == c.DurableBits(s.dev);
    AllFree(Bits(s'.mem.bitmap, c.Blocks()));
  }

  lemma {:induction false} AllFree(bits: seq<bool>)
    requires forall i | 0 <= i < |bits| :: !bits[i]
    ensures CountFree(bits) == |bits|
  {
    if bits != [] {
      AllFree(bits[..|bits| - 1]);
    }
  }

  /** The physical blocks of the live blocks. */
  ghost function LiveBlocks(live: map<nat, Block>): nat {
    if live == map[] then 0
    else
      var k :| k in live;
      Size(live[k]) + LiveBlocks(live - {k})
  }

  lemma {:induction false} LiveBlocksRemove(live: map<nat, Block>, k: nat)
    requires k in live
    ensures LiveBlocks(live) == Size(live[k]) + LiveBlocks(live - {k})
    decreases |live|
  {
    var picked :| picked in live && LiveBlocks(live) == Size(live[picked]) + LiveBlocks(live - {picked});
    if picked != k {
      LiveBlocksRemove(live - {picked}, k);
      LiveBlocksRemove(live - {k}, picked);
      assert live - {picked} - {k} == live - {k} - {picked};
    }
  }

  /** The set bits are the blocks of `live`, apart from each other, and those of `leaked`. */
  ghost predicate BitsAre(bits: seq<bool>, live: map<nat, Block>, leaked: set<nat>) {
    && (forall k | k in live :: k + Size(live[k]) <= |bits|)
    && (forall k1, k2 | k1 in live && k2 in live && k1 != k2 :: Apart(k1, Size(live[k1]), k2, Size(live[k2])))
    && (forall i | i in leaked :: i < |bits| && !Covered(live, i))
    && (forall i: nat | i < |bits| :: bits[i] <==> Covered(live, i) || i in leaked)
  }

  lemma BitsWithoutBlock(bits: seq<bool>, live: map<nat, Block>, leaked: set<nat>, k: nat)
    requires BitsAre(bits, live, leaked) && k in live
    ensures var bits' := WithRange(bits, k, Size(live[k]), false);
            && BitsAre(bits', live - {k}, leaked) && FreeRun(bits', k, Size(live[k]))
            && bits == WithRange(bits', k, Size(live[k]), true)
  {
    forall i: nat
      ensures Covered(live - {k}, i) <==> Covered(live, i) && !(k <= i < k + Size(live[k]))
    {
      CoveredRemove(live, k, i);
    }
    forall i: nat | k <= i < k + Size(live[k])
      ensures Covered(live, i)
    {
    }
  }

  lemma BitsWithoutLeak(bits: seq<bool>, live: map<nat, Block>, leaked: set<nat>, i: nat)
    requires BitsAre(bits, live, leaked) && i in leaked
    ensures var bits' := WithRange(bits, i, 1, false);
            && BitsAre(bits', live, leaked - {i}) && FreeRun(bits', i, 1)
            && bits == WithRange(bits', i, 1, true)
  {
  }

  /** Taking a run of set bits away. */
  lemma CountWithout(bits: seq<bool>, start: nat, n: nat)
    requires var bits' := WithRange(bits, start, n, false); FreeRun(bits', start, n) && bits == WithRange(bits', start, n, true)
    ensures CountFree(bits) == CountFree(WithRange(bits, start, n, false)) - n
  {
    CountFreeRange(WithRange(bits, start, n, false), start, n);
  }

  lemma NoBits(bits: seq<bool>)
    requires BitsAre(bits, map[], {})
    ensures CountFree(bits) == |bits|
  {
    AllFree(bits);
  }

  /** Counting them. */
  lemma {:induction false} CountBits(bits: seq<bool>, live: map<nat, Block>, leaked: set<nat>)
    requires BitsAre(bits, live, leaked)
    ensures CountFree(bits) == |bits| - LiveBlocks(live) - |leaked|
    decreases |live|, |leaked|
  {
    if live != map[] {
      var k :| k in live;
      BitsWithoutBlock(bits, live, leaked, k);
      CountWithout(bits, k, Size(live[k]));
      CountBits(WithRange(bits, k, Size(live[k]), false), live - {k}, leaked);
      LiveBlocksRemove(live, k);
    } else if leaked != {} {
      var i :| i in leaked;
      BitsWithoutLeak(bits, live, leaked, i);
      CountWithout(bits, i, 1);
      CountBits(WithRange(bits, i, 1, false), live, leaked - {i});
    } else {
      NoBits(bits);
    }
  }

  /** The used blocks of an idle disk are those of its live blocks, and the leaked ones. */
  lemma UsedIsLiveAndLeaked(c: Config, s: State)
    requires Inv(c, s) && s.mem.Up? && s.mem.phase.Idle?
    ensures UsedOf(c, s) == LiveBlocks(s.live) + |s.leaked|
  {
    forall i: nat | i < c.Blocks()
      ensures Bits(s.mem.bitmap, c.Blocks())[i] <==> Covered(s.live, i) || i in s.leaked
      ensures i in s.leaked ==> !Covered(s.live, i)
    {
      assert BlockOk(c, s, i);
    }
    forall k | k in s.live
      ensures k + Size(s.live[k]) <= c.Blocks()
    {
      LiveBits(c, s, k);
    }
    CountBits(Bits(s.mem.bitmap, c.Blocks()), s.live, s.leaked);
  }

  /** What a run without deletes adds to the used blocks: acknowledged blocks and leaks. */
  ghost function Gained(s: State, s': State): nat {
    LiveBlocks(s'.live - s.live.Keys) + |s'.leaked - s.leaked|
  }

  lemma {:induction false} LiveBlocksMore(live: map<nat, Block>, live': map<nat, Block>)
    requires forall k | k in live :: k in live' && live'[k] == live[k]
    ensures LiveBlocks(live') == LiveBlocks(live) + LiveBlocks(live' - live.Keys)
    decreases |live|
  {
    if live == map[] {
      assert live' - live.Keys == live';
    } else {
      var k :| k in live;
      LiveBlocksRemove(live, k);
      LiveBlocksRemove(live', k);
      LiveBlocksMore(live - {k}, live' - {k});
      SameRest(live, live', k);
    }
  }

  lemma SameRest(live: map<nat, Block>, live': map<nat, Block>, k: nat)
    requires k in live
    ensures live' - {k} - (live - {k}).Keys == live' - live.Keys
  {
    assert (live - {k}).Keys == live.Keys - {k};
  }

  lemma RunUses(c: Config, s: State, s': State)
    requires Inv(c, s) && s.mem.Up? && s.mem.phase.Idle? && Survives(c, s, s') && s'.mem.Up? && s'.mem.phase.Idle?
    ensures UsedOf(c, s') == UsedOf(c, s) + Gained(s, s')
  {
    SurvivesKeeps(c, s, s');
    UsedIsLiveAndLeaked(c, s);
    UsedIsLiveAndLeaked(c, s');
    LiveBlocksMore(s.live, s'.live);
    SetMore(s.leaked, s'.leaked);
  }

  lemma SetMore(leaked: set<nat>, leaked': set<nat>)
    requires leaked <= leaked'
    ensures |leaked'| == |leaked| + |leaked' - leaked|
  {
    assert leaked' == leaked + (leaked' - leaked);
  }

  /** An acknowledged write takes exactly the physical blocks of its block. */
  lemma WriteUses(c: Config, s: State, s': State, block: Block, offset: nat)
    requires Acknowledged(c, s, s', block, offset)
    ensures UsedOf(c, s') == UsedOf(c, s) + Size(block)
  {
    CountFreeRange(Bits(s.mem.bitmap, c.Blocks()), c.StartOf(offset), Size(block));
  }

  /** A delete gives back exactly those blocks. */
  lemma DeleteFrees(c: Config, s: State, s': State, start: nat)
    requires Inv(c, s) && Deleted(c, s, s', start)
    ensures UsedOf(c, s') == UsedOf(c, s) - Size(s.live[start])
  {
    var before, after := Bits(s.mem.bitmap, c.Blocks()), Bits(s'.mem.bitmap, c.Blocks());
    LiveBits(c, s, start);
    assert before == WithRange(after, start, Size(s.live[start]), true);
    CountFreeRange(after, start, Size(s.live[start]));
  }

  lemma FailureUses(c: Config, s: State, s': State)
    requires Unacknowledged(c, s, s')
    ensures UsedOf(c, s') == UsedOf(c, s)
  {
  }

  /** No block came or went, and only a crash inside the bitmap save leaked any. */
  ghost predicate SameBlocks(s: State, s': State, cut: Cut) {
    s'.live == s.live && (!cut.InSave? ==> s'.leaked == s.leaked)
  }

  lemma SameBlocksThrough(cs: seq<Config>, ss: seq<State>, ss1: seq<State>, ss2: seq<State>, ss3: seq<State>, d: nat, cut: Cut)
    requires |cs| == |ss| == |ss1| == |ss2| == |ss3|
    requires forall i | 0 <= i < |ss| && i != d :: ss1[i] == ss[i] && Reopened(cs[i], ss1[i], ss2[i])
    requires d < |ss| ==> SameBlocks(ss[d], ss1[d], cut) && ss2[d] == ss1[d]
    requires forall i | 0 <= i < |ss| :: Recovered(cs[i], ss2[i], ss3[i])
    ensures forall i | 0 <= i < |ss| :: SameBlocks(ss[i], ss3[i], cut)
  {
  }

  ghost predicate AllSurvive(cs: seq<Config>, ss: seq<State>, ss': seq<State>) {
    |cs| == |ss| == |ss'| && forall i | 0 <= i < |ss| :: Survives(cs[i], ss[i], ss'[i])
  }

  /** One disk takes some steps, the others some, then all. */
  lemma SurvivesThrough(cs: seq<Config>, ss: seq<State>, ss1: seq<State>, ss2: seq<State>, ss3: seq<State>, d: nat)
    requires |cs| == |ss| == |ss1| == |ss2| == |ss3|
    requires forall i | 0 <= i < |ss| && i != d :: ss1[i] == ss[i] && Survives(cs[i], ss1[i], ss2[i])
    requires d < |ss| ==> Survives(cs[d], ss[d], ss1[d]) && ss2[d] == ss1[d]
    requires forall i | 0 <= i < |ss| :: Survives(cs[i], ss2[i], ss3[i])
    ensures AllSurvive(cs, ss, ss3)
  {
    forall i | 0 <= i < |ss|
      ensures Survives(cs[i], ss[i], ss3[i])
    {
      SurvivesBoth(cs[i], ss[i], ss2[i], ss3[i]);
    }
  }

  // ---- which disk a write goes to ----

  /** Disk `i` is normal, has a free block, and no normal disk has more; among equals it is the first. */
  ghost predicate Best(cs: seq<Config>, ss: seq<State>, i: nat) {
    && |cs| == |ss| && i < |ss| && ss[i].mem.Up? && FreeOf(cs[i], ss[i]) > 0
    && forall j | 0 <= j < |ss| && ss[j].mem.Up? ::
         FreeOf(cs[j], ss[j]) <= FreeOf(cs[i], ss[i]) && (j < i ==> FreeOf(cs[j], ss[j]) < FreeOf(cs[i], ss[i]))
  }

  /** What becomes of a write to the pool: the disk with the most free blocks decides. */
  ghost function PoolStatus(cs: seq<Config>, ss: seq<State>, block: Block, accepted: nat): Status {
    if exists i: nat :: Best(cs, ss, i) then
      var i: nat :| Best(cs, ss, i);
      WriteStatus(cs[i], ss[i], block, accepted)
    else NoSpace
  }

  lemma BestIsUnique(cs: seq<Config>, ss: seq<State>, i: nat)
    requires Best(cs, ss, i)
    ensures forall j: nat | Best(cs, ss, j) :: j == i
  {
  }

  /** What that means for the disk with the most free blocks, and without one: a write finds no space exactly if that disk has no
    * run of free blocks as long as header and payload need, whatever the other disks have. */
  lemma PoolStatusExactly(cs: seq<Config>, ss: seq<State>, block: Block, accepted: nat, i: nat)
    requires |cs| == |ss|
    ensures Best(cs, ss, i) && WellSized(cs[i], ss[i]) ==>
              var room := exists t: nat :: FreeRun(Bits(ss[i].mem.bitmap, cs[i].Blocks()), t, PhysicalBlocks(|block.data|));
              && (PoolStatus(cs, ss, block, accepted) == NoSpace <==> !room)
              && (PoolStatus(cs, ss, block, accepted) == IOError <==> room && accepted < PhysicalBlocks(|block.data|) * 4096)
              && (PoolStatus(cs, ss, block, accepted) == Ok <==> room && accepted >= PhysicalBlocks(|block.data|) * 4096)
    ensures (forall j | 0 <= j < |ss| :: ss[j].mem.Down? || FreeOf(cs[j], ss[j]) == 0) ==> PoolStatus(cs, ss, block, accepted) == NoSpace
  {
    if Best(cs, ss, i) {
      BestIsUnique(cs, ss, i);
      assert Size(block) == PhysicalBlocks(|block.data|);
    }
  }

  /** A write that was not taken changes nothing about which writes are. */
  lemma FailureKeepsStatus(cs: seq<Config>, ss: seq<State>, ss': seq<State>, d: nat, block: Block, accepted: nat)
    requires |cs| == |ss| == |ss'| && d < |ss| && ss' == ss[d := ss'[d]] && Unacknowledged(cs[d], ss[d], ss'[d])
    ensures PoolStatus(cs, ss', block, accepted) == PoolStatus(cs, ss, block, accepted)
  {
    forall i: nat
      ensures Best(cs, ss', i) <==> Best(cs, ss, i)
    {
      SameBest(cs, ss, ss', d, i);
    }
    if i: nat :| Best(cs, ss, i) {
      BestIsUnique(cs, ss, i);
      BestIsUnique(cs, ss', i);
    }
  }

  lemma SameBest(cs: seq<Config>, ss: seq<State>, ss': seq<State>, d: nat, i: nat)
    requires |cs| == |ss| == |ss'| && d < |ss| && ss' == ss[d := ss'[d]] && Unacknowledged(cs[d], ss[d], ss'[d])
    ensures Best(cs, ss', i) <==> Best(cs, ss, i)
  {
    forall j | 0 <= j < |ss|
      ensures FreeOf(cs[j], ss'[j]) == FreeOf(cs[j], ss[j]) && ss'[j].mem.Up? == ss[j].mem.Up?
    {
    }
  }

  // ---- disks by number ----

  /** Always true; names a disk number where a quantifier is to be instantiated with it. */
  predicate DiskNumber(i: nat) {
    true
  }

  /** The machine's invariant of every disk. */
  ghost predicate InvOfAll(cs: seq<Config>, ss: seq<State>) {
    |cs| == |ss| && forall i: nat {:trigger DiskNumber(i)} | DiskNumber(i) && i < |ss| :: Inv(cs[i], ss[i])
  }

  /** Always true; the same for the memory of a disk. */
  predicate Region(i: nat) {
    true
  }

  ghost predicate PairwiseApart(regions: seq<set<object>>) {
    forall i: nat, j: nat {:trigger Region(i), Region(j)} | Region(i) && Region(j) && i < |regions| && j < |regions| && i != j ::
      regions[i] !! regions[j]
  }

  lemma ApartAt(regions: seq<set<object>>, i: nat, j: nat)
    requires PairwiseApart(regions) && i < |regions| && j < |regions| && i != j
    ensures regions[i] !! regions[j]
  {
    assert Region(i) && Region(j);
  }

  lemma ApartExtended(regions: seq<set<object>>)
    requires regions != [] && PairwiseApart(regions[..|regions| - 1])
    requires forall i | 0 <= i < |regions| - 1 :: regions[i] !! regions[|regions| - 1]
    ensures PairwiseApart(regions)
  {
    var last := |regions| - 1;
    forall i: nat, j: nat | i < |regions| && j < |regions| && i != j
      ensures regions[i] !! regions[j]
    {
      if i < last && j < last {
        ApartAt(regions[..last], i, j);
      }
    }
  }

  lemma ApartUpdated(regions: seq<set<object>>, d: nat, region: set<object>)
    requires PairwiseApart(regions) && d < |regions|
    requires forall i | 0 <= i < |regions| && i != d :: regions[i] !! region
    ensures PairwiseApart(regions[d := region])
  {
    var regions' := regions[d := region];
    forall i: nat, j: nat | i < |regions| && j < |regions| && i != j
      ensures regions'[i] !! regions'[j]
    {
      if i != d && j != d {
        ApartAt(regions, i, j);
      }
    }
  }

  class DiskPool {
    var disks: seq<DiskManager>
    ghost var configs: seq<Config>
    ghost var states: seq<State>
    ghost var footprint: set<object>
    ghost var regions: seq<set<object>>     // the memory of each disk

    /** Disk `i` keeps its invariant, and the mirrors of its state are exact. The WAL is used as written (see Wal.dfy). */
    ghost predicate DiskOk(i: nat)
      reads this, footprint
    {
      && i < |disks| == |configs| == |states| == |regions|
      && regions[i] <= footprint && disks[i] in regions[i] && disks[i].bitmap in regions[i]
      && disks[i].Repr() <= regions[i]
      && disks[i].Valid()
      && configs[i] == disks[i].config && configs[i].placement.AsWritten?
      && states[i] == disks[i].Abs()
    }

    ghost predicate IsUp(i: nat)
      reads this
    {
      i < |states| && states[i].mem.Up?
    }

    ghost predicate Valid()
      reads this, footprint
    {
      && |disks| == |configs| == |states| == |regions|
      && this !in footprint && PairwiseApart(regions)
      && (forall i: nat {:trigger IsUp(i)} | i < |states| :: IsUp(i))
      && (forall i: nat {:trigger DiskOk(i)} | i < |disks| :: DiskOk(i))
    }

    constructor ()
      ensures Valid() && disks == [] && configs == [] && states == [] && footprint == {}
    {
      disks, configs, states, footprint, regions := [], [], [], {}, [];
    }

    /** A disk whose memory is left alone is as before. */
    twostate lemma SameDisk(i: nat)
      requires i < |disks| == |states| == |configs| == |regions| && old(DiskOk(i))
      requires disks[i] == old(disks[i]) && configs[i] == old(configs[i])
      requires states[i] == old(states[i]) && regions[i] == old(regions[i]) && old(footprint) <= footprint
      requires forall o: object | o in old(regions[i]) :: unchanged(o)
      ensures DiskOk(i)
    {
    }

    lemma AllKeepInvariant()
      requires Valid()
      ensures InvOfAll(configs, states)
    {
      forall i: nat | i < |states|
        ensures Inv(configs[i], states[i])
      {
        assert DiskOk(i);
      }
    }

    lemma AllIdle()
      requires Valid()
      ensures forall i | 0 <= i < |states| :: states[i].mem.Up? && states[i].mem.phase.Idle?
    {
      forall i | 0 <= i < |states|
        ensures states[i].mem.Up? && states[i].mem.phase.Idle?
      {
        assert IsUp(i) && DiskOk(i);
      }
    }

    method FreeBlockCount(i: nat) returns (free: nat, normal: bool)
      requires DiskOk(i)
      ensures normal == states[i].mem.Up?
      ensures normal ==> free == FreeOf(configs[i], states[i])
    {
      free := disks[i].FreeBlockCount();
      normal := disks[i].state == Normal;
    }

    /** SelectDisk, src/data/disk_pool.cpp:129-146. */
    method SelectDisk() returns (r: Option<nat>)
      requires Valid()
      ensures r.Some? ==> Best(configs, states, r.value)
      ensures r.None? ==> forall j | 0 <= j < |states| && states[j].mem.Up? :: FreeOf(configs[j], states[j]) == 0
    {
      r := None;
      var bestFree := 0;
      for i := 0 to |disks|
        invariant r.None? ==> bestFree == 0
        invariant r.Some? ==> r.value < i && states[r.value].mem.Up? && bestFree == FreeOf(configs[r.value], states[r.value]) > 0
        invariant forall j | 0 <= j < i && states[j].mem.Up? :: FreeOf(configs[j], states[j]) <= bestFree
        invariant r.Some? ==> forall j | 0 <= j < r.value && states[j].mem.Up? :: FreeOf(configs[j], states[j]) < bestFree
      {
        var freeBlocks, normal := FreeBlockCount(i);
        if freeBlocks > bestFree && normal {
          r := Some(i);
          bestFree := freeBlocks;
        }
      }
    }

    /** AddDisk, src/data/disk_pool.cpp:7-18: the disk is formatted, then opened. */
    method AddDisk(c: Config)
      requires Valid() && c.Sound() && c.placement.AsWritten?
      modifies this
      ensures Valid() && fresh(footprint - old(footprint))
      ensures configs == old(configs) + [c] && |states| == |configs| && states[..|states| - 1] == old(states)
      ensures var s := states[|states| - 1]; s.live == map[] && UsedOf(c, s) == 0
    {
      var disk := new DiskManager(c);
      ghost var s := disk.Abs();
      disk.Open();
      FormattedIsFree(c, s, disk.Abs());
      disks, configs, states := disks + [disk], configs + [c], states + [disk.Abs()];
      footprint, regions := footprint + disk.Repr(), regions + [disk.Repr()];
      AfterAdding();
    }

    /** An open disk in fresh memory is new at the end, and nothing else changed. */
    twostate lemma AfterAdding()
      requires old(Valid()) && |disks| == |configs| == |states| == |regions| == |old(disks)| + 1
      requires disks == old(disks) + [disks[|old(disks)|]] && configs == old(configs) + [configs[|old(disks)|]]
      requires states == old(states) + [states[|old(disks)|]] && regions == old(regions) + [regions[|old(disks)|]]
      requires DiskOk(|old(disks)|) && IsUp(|old(disks)|)
      requires fresh(regions[|old(disks)|]) && footprint == old(footprint) + regions[|old(disks)|]
      requires forall o: object | o in old(footprint) :: unchanged(o)
      ensures Valid()
    {
      var was := |old(disks)|;
      forall i: nat | i < was
        ensures IsUp(i) && DiskOk(i) && regions[i] !! regions[was]
      {
        assert old(DiskOk(i)) && old(IsUp(i));
        SameDisk(i);
      }
      assert regions[..was] == old(regions);
      ApartExtended(regions);
    }

    /** After an operation on disk `d` alone, which may have taken fresh memory, every other disk is as before. */
    twostate lemma OthersAsBefore(d: nat)
      requires old(Valid()) && d < |disks| == |states| == |regions| && DiskOk(d) && IsUp(d)
      requires disks == old(disks) && configs == old(configs) && |old(states)| == |old(regions)| == |disks|
      requires states == old(states)[d := states[d]] && regions == old(regions)[d := regions[d]]
      requires footprint == old(footprint) + regions[d] && fresh(regions[d] - old(regions[d]))
      requires forall o: object | o in old(footprint) && o !in old(regions[d]) :: unchanged(o)
      ensures Valid()
    {
      forall i: nat | i < |disks| && i != d
        ensures IsUp(i) && DiskOk(i) && regions[i] !! regions[d]
      {
        assert old(DiskOk(i)) && old(IsUp(i));
        ApartAt(old(regions), i, d);
        SameDisk(i);
        assert regions[i] == old(regions)[i];
      }
      assert old(DiskOk(d)) && this !in regions[d];
      assert forall i | 0 <= i < |disks| && i != d :: old(regions)[i] == regions[i];
      ApartUpdated(old(regions), d, regions[d]);
    }

    /** In particular after one in its own memory. */
    twostate lemma OthersUntouched(d: nat)
      requires old(Valid()) && d < |disks| == |states| && DiskOk(d) && IsUp(d)
      requires disks == old(disks) && configs == old(configs) && footprint == old(footprint) && regions == old(regions)
      requires |old(states)| == |disks| && states == old(states)[d := states[d]]
      requires forall o: object | o in old(footprint) && o !in old(regions[d]) :: unchanged(o)
      ensures Valid()
    {
      assert regions[d] <= footprint;
      assert footprint == old(footprint) + regions[d];
      OthersAsBefore(d);
    }

    method WriteOn(d: nat, block: Block, accepted: nat) returns (status: Status, offset: nat)
      requires d < |regions| && DiskOk(d) && IsUp(d) && this !in regions[d] && block.Fits()
      modifies this`states, regions[d]
      ensures DiskOk(d) && IsUp(d)
      ensures states == old(states)[d := states[d]]
      ensures status == WriteStatus(configs[d], old(states[d]), block, accepted)
      ensures status == Ok ==> Acknowledged(configs[d], old(states[d]), states[d], block, offset)
      ensures status != Ok ==> Unacknowledged(configs[d], old(states[d]), states[d])
    {
      ghost var run, steps;
      status, offset, run, steps := disks[d].WriteBlock(block, accepted);
      states := states[d := disks[d].Abs()];
    }

    method WriteTo(d: nat, block: Block, accepted: nat) returns (status: Status, offset: nat)
      requires Valid() && d < |disks| && block.Fits()
      modifies this`states, regions[d]
      ensures Valid() && |states| == |old(states)| && states == old(states)[d := states[d]]
      ensures status == WriteStatus(configs[d], old(states[d]), block, accepted)
      ensures status == Ok ==> Acknowledged(configs[d], old(states[d]), states[d], block, offset)
      ensures status != Ok ==> Unacknowledged(configs[d], old(states[d]), states[d])
    {
      assert DiskOk(d) && IsUp(d);
      status, offset := WriteOn(d, block, accepted);
      OthersUntouched(d);
    }

    /** WriteBlock, src/data/disk_pool.cpp:41-63; `accepted` is what the selected device takes. */
    method WriteBlock(block: Block, accepted: nat) returns (status: Status, diskId: nat, offset: nat)
      requires Valid() && block.Fits()
      modifies this`states, footprint
      ensures Valid()
      ensures |states| == |old(states)|
      ensures diskId < |states| ==> states == old(states)[diskId := states[diskId]]
      ensures diskId >= |states| ==> states == old(states)
      ensures diskId < |states| ==> Best(configs, old(states), diskId)
      ensures status == PoolStatus(configs, old(states), block, accepted)
      ensures status == Ok ==> diskId < |states| && Acknowledged(configs[diskId], old(states)[diskId], states[diskId], block, offset)
      ensures status != Ok && diskId < |states| ==> Unacknowledged(configs[diskId], old(states)[diskId], states[diskId])
    {
      diskId, offset := |disks|, 0;
      if disks == [] {
        return NoSpace, diskId, offset;
      }
      var selected := SelectDisk();
      if selected.None? {
        assert forall i: nat | i < |disks| :: IsUp(i);
        assert forall i: nat :: !Best(configs, states, i);
        return NoSpace, diskId, offset;
      }
      diskId := selected.value;
      BestIsUnique(configs, states, diskId);
      assert DiskOk(diskId);
      status, offset := WriteTo(diskId, block, accepted);
    }

    /** ReadBlock, src/data/disk_pool.cpp:65-75. */
    method ReadBlock(diskId: nat, offset: nat) returns (status: Status, r: ReadResult)
      requires Valid()
      ensures diskId >= |states| ==> status == NotFound
      ensures diskId < |states| ==>
                && r == ReadFrom(states[diskId].dev, offset)
                && (status == match r case ReadOk(_, _, _) => Ok case ReadFailed(bad) => if bad then Internal else IOError)
    {
      if diskId >= |disks| {
        return NotFound, ReadFailed(false);
      }
      assert DiskOk(diskId) && IsUp(diskId);
      status, r := disks[diskId].ReadBlock(offset);
    }

    method DeleteOn(d: nat, offset: nat, dataSize: nat) returns (status: Status)
      requires d < |regions| && DiskOk(d) && IsUp(d) && this !in regions[d]
      requires IsLiveAt(configs[d], states[d].live, offset, dataSize)
      modifies this`states, regions[d]
      ensures DiskOk(d) && IsUp(d)
      ensures states == old(states)[d := states[d]]
      ensures status == Ok && Deleted(configs[d], old(states[d]), states[d], configs[d].StartOf(offset))
    {
      ghost var run, steps;
      status, run, steps := disks[d].DeleteBlock(offset, dataSize);
      states := states[d := disks[d].Abs()];
    }

    method DeleteFrom(d: nat, offset: nat, dataSize: nat)
      requires Valid() && d < |disks| && IsLiveAt(configs[d], states[d].live, offset, dataSize)
      modifies this`states, regions[d]
      ensures Valid() && |states| == |old(states)| && states == old(states)[d := states[d]]
      ensures Deleted(configs[d], old(states[d]), states[d], configs[d].StartOf(offset))
    {
      assert DiskOk(d) && IsUp(d);
      var status := DeleteOn(d, offset, dataSize);
      OthersUntouched(d);
    }

    /** DeleteBlock, src/data/disk_pool.cpp:77-85. */
    method DeleteBlock(diskId: nat, offset: nat, dataSize: nat) returns (status: Status)
      requires Valid()
      requires diskId < |states| ==> IsLiveAt(configs[diskId], states[diskId].live, offset, dataSize)
      modifies this`states, footprint
      ensures Valid() && |states| == |old(states)|
      ensures status == if diskId < |states| then Ok else NotFound
      ensures diskId >= |states| ==> states == old(states)
      ensures diskId < |states| ==> states == old(states)[diskId := states[diskId]]
      ensures diskId < |states| ==>
                Deleted(configs[diskId], old(states)[diskId], states[diskId], configs[diskId].StartOf(offset))
    {
      if diskId >= |disks| {
        return NotFound;
      }
      assert DiskOk(diskId) && IsUp(diskId);
      DeleteFrom(diskId, offset, dataSize);
      status := Ok;
    }

    // ---- restart ----

    method ReopenOn(d: nat)
      requires d < |regions| && DiskOk(d) && this !in regions[d]
      modifies this`states, this`regions, this`footprint, regions[d]
      ensures DiskOk(d) && IsUp(d)
      ensures states == old(states)[d := states[d]] && regions == old(regions)[d := regions[d]]
      ensures footprint == old(footprint) + regions[d] && fresh(regions[d] - old(regions[d]))
      ensures Reopened(configs[d], old(states[d]), states[d]) && Survives(configs[d], old(states[d]), states[d])
    {
      disks[d].Reopen();
      states, regions := states[d := disks[d].Abs()], regions[d := regions[d] + disks[d].Repr()];
      footprint := footprint + regions[d];
    }

    method ReopenDisk(d: nat)
      requires Valid() && d < |disks|
      modifies this`states, this`regions, this`footprint, regions[d]
      ensures Valid() && |states| == |old(states)| && states == old(states)[d := states[d]]
      ensures fresh(footprint - old(footprint))
      ensures Reopened(configs[d], old(states[d]), states[d]) && Survives(configs[d], old(states[d]), states[d])
    {
      assert DiskOk(d) && IsUp(d);
      ReopenOn(d);
      OthersAsBefore(d);
    }

    method CutOffOn(d: nat, block: Block, cut: Cut)
      requires d < |regions| && DiskOk(d) && IsUp(d) && this !in regions[d] && block.Fits()
      modifies this`states, this`regions, this`footprint, regions[d]
      ensures DiskOk(d) && IsUp(d)
      ensures states == old(states)[d := states[d]] && regions == old(regions)[d := regions[d]]
      ensures footprint == old(footprint) + regions[d] && fresh(regions[d] - old(regions[d]))
      ensures Survives(configs[d], old(states[d]), states[d]) && SameBlocks(old(states[d]), states[d], cut)
    {
      disks[d].WriteCutOffAndReopen(block, cut);
      states, regions := states[d := disks[d].Abs()], regions[d := regions[d] + disks[d].Repr()];
      footprint := footprint + regions[d];
    }

    method CutOffDisk(d: nat, block: Block, cut: Cut)
      requires Valid() && d < |disks| && block.Fits()
      modifies this`states, this`regions, this`footprint, regions[d]
      ensures Valid() && |states| == |old(states)| && states == old(states)[d := states[d]]
      ensures fresh(footprint - old(footprint))
      ensures Survives(configs[d], old(states[d]), states[d]) && SameBlocks(old(states[d]), states[d], cut)
    {
      assert DiskOk(d) && IsUp(d);
      CutOffOn(d, block, cut);
      OthersAsBefore(d);
    }

    method RecoverOn(d: nat)
      requires d < |regions| && DiskOk(d) && IsUp(d) && this !in regions[d]
      modifies this`states, regions[d]
      ensures DiskOk(d) && IsUp(d)
      ensures states == old(states)[d := states[d]]
      ensures Recovered(configs[d], old(states[d]), states[d]) && Survives(configs[d], old(states[d]), states[d])
    {
      ghost var run, steps;
      var status;
      status, run, steps := disks[d].Recover();
      states := states[d := disks[d].Abs()];
    }

    method RecoverDisk(d: nat)
      requires Valid() && d < |disks|
      modifies this`states, regions[d]
      ensures Valid() && |states| == |old(states)| && states == old(states)[d := states[d]]
      ensures Recovered(configs[d], old(states[d]), states[d]) && Survives(configs[d], old(states[d]), states[d])
    {
      assert DiskOk(d) && IsUp(d);
      RecoverOn(d);
      OthersUntouched(d);
    }

    /** Every disk but `skip` is opened anew from its formatted file, after the process ended between its operations. */
    method ReopenBut(skip: nat)
      requires Valid()
      modifies this`states, this`regions, this`footprint, footprint
      ensures Valid() && |states| == |old(states)| && fresh(footprint - old(footprint))
      ensures skip < |states| ==> states[skip] == old(states)[skip]
      ensures forall i | 0 <= i < |states| && i != skip ::
                Reopened(configs[i], old(states)[i], states[i]) && Survives(configs[i], old(states)[i], states[i])
    {
      for i := 0 to |disks|
        invariant Valid() && |states| == |old(states)| && fresh(footprint - old(footprint))
        invariant forall j | 0 <= j < i && j != skip ::
                    Reopened(configs[j], old(states)[j], states[j]) && Survives(configs[j], old(states)[j], states[j])
        invariant forall j | 0 <= j < |states| && (i <= j || j == skip) :: states[j] == old(states)[j]
      {
        if i != skip {
          assert DiskOk(i);
          ReopenDisk(i);
        }
      }
    }

    /** The process ends between operations and starts again: every disk is added from its formatted file. */
    method ReopenAll()
      requires Valid()
      modifies this`states, this`regions, this`footprint, footprint
      ensures Valid() && |states| == |old(states)| && fresh(footprint - old(footprint))
      ensures forall i | 0 <= i < |states| :: Reopened(configs[i], old(states)[i], states[i])
    {
      ReopenBut(|disks|);
    }

    /** RecoverAll, src/data/disk_pool.cpp:87-101. */
    method RecoverAll()
      requires Valid()
      modifies this`states, footprint
      ensures Valid() && |states| == |old(states)|
      ensures forall i | 0 <= i < |states| ::
                Recovered(configs[i], old(states)[i], states[i]) && Survives(configs[i], old(states)[i], states[i])
    {
      for i := 0 to |disks|
        invariant Valid() && |states| == |old(states)|
        invariant forall j | 0 <= j < i ::
                    Recovered(configs[j], old(states)[j], states[j]) && Survives(configs[j], old(states)[j], states[j])
        invariant forall j | i <= j < |states| :: states[j] == old(states)[j]
      {
        assert DiskOk(i);
        RecoverDisk(i);
      }
    }

    /** The process ends inside a write, as far as `cut` says; then every disk is opened again and recovered. */
    method WriteCutOff(block: Block, cut: Cut)
      requires Valid() && block.Fits()
      modifies this`states, this`regions, this`footprint, footprint
      ensures Valid() && |states| == |old(states)| && fresh(footprint - old(footprint))
      ensures AllSurvive(configs, old(states), states)
      ensures forall i | 0 <= i < |states| :: SameBlocks(old(states)[i], states[i], cut)
    {
      ghost var ss0 := states;
      var selected := SelectDisk();
      var d := if selected.Some? then selected.value else |disks|;
      if d < |disks| {
        assert DiskOk(d);
        CutOffDisk(d, block, cut);
      }
      ghost var ss1 := states;
      ReopenBut(d);
      ghost var ss2 := states;
      RecoverAll();
      SurvivesThrough(configs, ss0, ss1, ss2, states, d);
      SameBlocksThrough(configs, ss0, ss1, ss2, states, d, cut);
    }
  }
}
