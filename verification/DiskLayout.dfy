/** src/data/disk_manager.cpp:15-128: where DiskFormatter::Format puts the regions of a disk. */
module DiskLayout {
  import opened Bytes
  import opened Bitmap
  import opened BlockRecord

  const BITS_PER_BLOCK: nat := 32768
  const WAL_DEFAULT_BLOCKS: nat := 256

  /** uint64_t subtraction. */
  function Sub64(a: nat, b: nat): nat
    requires a < TWO_64 && b < TWO_64
  {
    if a >= b then a - b else a + TWO_64 - b
  }

  /** The fields of DiskSuperBlock that describe the layout. */
  datatype Layout = Layout(totalBlocks: nat, bitmapBlocks: nat, walBlocks: nat, dataBlocks: nat)
  {
    const bitmapOffset: nat := BLOCK

    function DataOffset(): nat {
      bitmapOffset + bitmapBlocks * BLOCK
    }

    /** Bytes BlockBitmap::Load keeps for this disk: those it is given, grown to one bit per data block. */
    function BitmapBytes(): nat {
      if bitmapBlocks * BLOCK < (dataBlocks + 7) / 8 then (dataBlocks + 7) / 8 else bitmapBlocks * BLOCK
    }

    /** Superblock, bitmap and data area follow each other within the device, and a saved bitmap stays in its region. */
    ghost predicate Sound() {
      && DataOffset() + dataBlocks * BLOCK + walBlocks * BLOCK == totalBlocks * BLOCK
      && dataBlocks > 0
      && dataBlocks <= 8 * bitmapBlocks * BLOCK
      && bitmapOffset + BitmapBytes() <= DataOffset()
    }
  }

  datatype FormatResult = InvalidArgument | Formatted(layout: Layout)

  /** Bitmap blocks needed for `dataBlocks` bits, as Format computes it. */
  function BlocksForBits(dataBlocks: nat): nat {
    ((dataBlocks + 7) / 8 + BLOCK - 1) / BLOCK
  }

  lemma BlocksForBitsIsCeiling(d: nat)
    ensures BlocksForBits(d) == (d + BITS_PER_BLOCK - 1) / BITS_PER_BLOCK
  {
  }

  /** One round of the loop, where `t` blocks are shared by bitmap and data. */
  function Round(t: nat, b: nat): nat
    requires b <= t
  {
    BlocksForBits(t - b)
  }

  /** The bitmap sizes for which the loop stops. */
  ghost predicate Fixpoint(t: nat, b: nat) {
    b <= t && Round(t, b) == b
  }

  /** Where the loop ends: its fixpoint ceil(t/32769), or, without one, the smaller of the two it alternates between. */
  function Settled(t: nat): nat {
    if t % 32769 == 1 then t / 32769 else (t + 32768) / 32769
  }

  /** A fixpoint exists unless t = 32769k+1, and then it is unique. */
  lemma FixpointExactly(t: nat, b: nat)
    ensures Fixpoint(t, b) <==> b <= t && t % 32769 != 1 && b == Settled(t)
  {
    if b <= t {
      BlocksForBitsIsCeiling(t - b);
      CeilingIs(t - b, b);
      SettledIs(t, t / 32769, t % 32769);
    }
  }

  lemma CeilingIs(d: nat, b: nat)
    ensures (d + BITS_PER_BLOCK - 1) / BITS_PER_BLOCK == b <==> 32768 * b <= d + 32767 < 32768 * b + 32768
  {
  }

  lemma SettledIs(t: nat, q: nat, r: nat)
    requires t == 32769 * q + r && r < 32769
    ensures t % 32769 == r && Settled(t) == if r <= 1 then q else q + 1
  {
  }

  /** Rounds starting from one bitmap block. */
  function After(t: nat, n: nat): (b: nat)
    requires t >= 2
    ensures b <= t
  {
    if n == 0 then 1
    else
      var b := After(t, n - 1);
      BlocksForBitsIsCeiling(t - b);
      Round(t, b)
  }

  /** A round shrinks the distance to the fixpoint 32768 times, rounding up. */
  lemma RoundContracts(t: nat, b: nat, d: nat)
    requires b <= t && t % 32769 != 1
    requires Settled(t) - d <= b <= Settled(t) + d
    ensures Settled(t) - (d + 32767) / 32768 <= Round(t, b) <= Settled(t) + (d + 32767) / 32768
  {
    BlocksForBitsIsCeiling(t - b);
  }

  lemma RoundNear(t: nat, s: nat, r: nat, b: nat)
    requires t + r == 32769 * s && r <= 32767 && b <= t
    ensures b == s ==> Round(t, b) == s
    ensures b + 1 == s ==> Round(t, b) == if r == 0 then s + 1 else s
    ensures b == s + 1 ==> Round(t, b) == if r == 32767 then s - 1 else s
  {
    BlocksForBitsIsCeiling(t - b);
  }

  /** How far the fixpoint overshoots. */
  lemma SettledForm(t: nat) returns (r: nat)
    requires t >= 2 && t % 32769 != 1
    ensures t + r == 32769 * Settled(t) && r <= 32767 && Settled(t) < t
  {
    r := 32769 * Settled(t) - t;
  }

  /** At distance one, two more rounds reach the fixpoint. */
  lemma TwoRoundsSettle(t: nat, b: nat)
    requires b <= t && t >= 2 && t % 32769 != 1
    requires Settled(t) - 1 <= b <= Settled(t) + 1
    ensures Round(t, b) <= t && Round(t, Round(t, b)) == Settled(t)
  {
    var s := Settled(t);
    var r := SettledForm(t);
    RoundNear(t, s, r, b);
    RoundNear(t, s, r, Round(t, b));
  }

  lemma ReachesFixpoint(t: nat)
    requires 2 <= t < 0x10_0000_0000_0000 && t % 32769 != 1
    ensures After(t, 5) == Settled(t) && Fixpoint(t, Settled(t))
  {
    assert 1 <= Settled(t) <= 0x20_0000_0000;
    RoundContracts(t, 1, 0x20_0000_0000);
    assert After(t, 1) == Round(t, 1);
    RoundContracts(t, After(t, 1), 0x40_0000);
    RoundContracts(t, After(t, 2), 128);
    assert After(t, 3) == Round(t, After(t, 2));
    TwoRoundsSettle(t, After(t, 3));
    assert After(t, 5) == Round(t, Round(t, After(t, 3)));
    FixpointExactly(t, Settled(t));
  }

  /** Without a fixpoint the rounds alternate between the two sides of k+1/2, and the distance shrinks. */
  lemma RoundAlternates(k: nat, b: nat, d: nat)
    requires b <= 32769 * k + 1
    ensures b == k - d ==> Round(32769 * k + 1, b) == k + 1 + d / 32768
    ensures b == k + 1 + d ==> Round(32769 * k + 1, b) == k - d / 32768
  {
    BlocksForBitsIsCeiling(32769 * k + 1 - b);
  }

  /** So the rounds end alternating, at k after an even number of them. */
  lemma {:induction false} Alternates(k: nat, n: nat)
    requires 1 <= k && 32769 * k + 1 < 0x10_0000_0000_0000 && n >= 3
    ensures After(32769 * k + 1, n) == if n % 2 == 0 then k else k + 1
  {
    var t := 32769 * k + 1;
    if n > 3 {
      Alternates(k, n - 1);
      RoundAlternates(k, After(t, n - 1), 0);
    } else {
      var d1 := (k - 1) / 32768;
      var d2 := d1 / 32768;
      assert d2 < 32768;
      RoundAlternates(k, 1, k - 1);
      assert After(t, 1) == k + 1 + d1;
      RoundAlternates(k, After(t, 1), d1);
      assert After(t, 2) == k - d2;
      RoundAlternates(k, After(t, 2), d2);
    }
  }

  /** A fixpoint once reached stays. */
  lemma {:induction false} StaysSettled(t: nat, n: nat)
    requires 2 <= t < 0x10_0000_0000_0000 && t % 32769 != 1 && n >= 5
    ensures After(t, n) == Settled(t)
  {
    ReachesFixpoint(t);
    if n > 5 {
      StaysSettled(t, n - 1);
    }
  }

  /** Stopping early or after ten rounds, the loop ends at Settled. */
  lemma LoopEnds(t: nat, i: nat)
    requires 2 <= t < 0x10_0000_0000_0000
    requires i == 10 || Round(t, After(t, i)) == After(t, i)
    ensures After(t, i) == Settled(t)
  {
    if Round(t, After(t, i)) == After(t, i) {
      FixpointExactly(t, After(t, i));
    } else if t % 32769 == 1 {
      Alternates(t / 32769, 10);
    } else {
      StaysSettled(t, 10);
    }
  }

  /** Data blocks and needed bitmap blocks, in 64-bit arithmetic. */
  function DataBlocks64(totalBlocks: nat, bitmapBlocks: nat, walBlocks: nat): (d: nat)
    requires totalBlocks < TWO_64 && bitmapBlocks < TWO_64 && walBlocks < TWO_64
    ensures d < TWO_64
  {
    Sub64(Sub64(Sub64(totalBlocks, 1), bitmapBlocks), walBlocks)
  }

  function NeededBlocks64(dataBlocks: nat): (n: nat)
    ensures n < TWO_64
  {
    ((((dataBlocks + 7) % TWO_64) / 8 + BLOCK - 1) % TWO_64) / BLOCK
  }

  /** On an accepted size nothing wraps. */
  lemma RoundIsExact(totalBlocks: nat, b: nat, walBlocks: nat)
    requires walBlocks + 3 <= totalBlocks < 0x10_0000_0000_0000 && b <= totalBlocks - 1 - walBlocks
    ensures DataBlocks64(totalBlocks, b, walBlocks) == totalBlocks - 1 - walBlocks - b
    ensures NeededBlocks64(DataBlocks64(totalBlocks, b, walBlocks)) == Round(totalBlocks - 1 - walBlocks, b)
  {
  }

  /** Format's outcome in closed form, unless its size test wraps around 64 bits. */
  method Format(diskSize: nat, walBlocksArg: nat) returns (r: FormatResult)
    requires diskSize < TWO_64 && walBlocksArg < TWO_64
    ensures var w := if walBlocksArg == 0 then WAL_DEFAULT_BLOCKS else walBlocksArg;
            var total := diskSize / BLOCK;
            w + 3 < TWO_64 ==>
              if total < w + 3 then r == InvalidArgument
              else
                var t := total - 1 - w;
                r == Formatted(Layout(total, Settled(t), w, t - Settled(t)))
  {
    var walBlocks := walBlocksArg;
    if walBlocks == 0 {
      walBlocks := WAL_DEFAULT_BLOCKS;
    }
    var totalBlocks := diskSize / BLOCK;
    if totalBlocks < (1 + 1 + walBlocks + 1) % TWO_64 {
      return InvalidArgument;
    }
    ghost var exact := walBlocks + 3 < TWO_64;
    ghost var t := if exact then totalBlocks - 1 - walBlocks else 2;
    var bitmapBlocks: nat := 1;
    var i := 0;
    while i < 10
      invariant 0 <= i <= 10 && bitmapBlocks < TWO_64
      invariant exact ==> bitmapBlocks == After(t, i)
    {
      var neededBlocks := NeededBlocks64(DataBlocks64(totalBlocks, bitmapBlocks, walBlocks));
      if exact {
        RoundIsExact(totalBlocks, bitmapBlocks, walBlocks);
      }
      if neededBlocks == bitmapBlocks {
        break;
      }
      bitmapBlocks := neededBlocks;
      i := i + 1;
    }
    if exact {
      LoopEnds(t, i);
      RoundIsExact(totalBlocks, bitmapBlocks, walBlocks);
    }
    r := Formatted(Layout(totalBlocks, bitmapBlocks, walBlocks, DataBlocks64(totalBlocks, bitmapBlocks, walBlocks)));
  }

  /** The formatted layout is sound exactly when the loop has a fixpoint. */
  lemma SoundExactly(total: nat, w: nat)
    requires w + 3 <= total < 0x10_0000_0000_0000
    ensures var t := total - 1 - w;
            var layout := Layout(total, Settled(t), w, t - Settled(t));
            && (layout.Sound() <==> t % 32769 != 1)
            && (t % 32769 == 1 ==> layout.bitmapOffset + layout.BitmapBytes() == layout.DataOffset() + 1)
  {
    var t := total - 1 - w;
    if t % 32769 != 1 {
      FixpointExactly(t, Settled(t));
      BlocksForBitsIsCeiling(t - Settled(t));
    }
  }

  // ---- a saved bitmap, loaded again ----

  /** SaveBitmap and then LoadBitmap, both of whose sizes pass through uint32_t; Load pads what it gets with zeros. */
  function Reloaded(layout: Layout, dev: seq<byte>, bm: seq<byte>): (r: seq<byte>)
    requires layout.Sound() && |bm| == layout.BitmapBytes() && layout.DataOffset() <= |dev|
    ensures layout.dataBlocks <= 8 * |r|
  {
    var saved := Overwrite(dev, layout.bitmapOffset, bm[..|bm| % TWO_32]);
    var loaded := saved[layout.bitmapOffset..layout.bitmapOffset + layout.bitmapBlocks * BLOCK % TWO_32];
    loaded + Zeros(if |loaded| < (layout.dataBlocks + 7) / 8 then (layout.dataBlocks + 7) / 8 - |loaded| else 0)
  }

  /** What comes back: the bits of the first BitmapBytes mod 2^32 bytes; every block beyond reads as free. */
  lemma ReloadedBit(layout: Layout, dev: seq<byte>, bm: seq<byte>, i: nat)
    requires layout.Sound() && |bm| == layout.BitmapBytes() && layout.DataOffset() <= |dev| && i < layout.dataBlocks
    ensures BitAt(Reloaded(layout, dev, bm), i) <==> BitAt(bm, i) && i / 8 < |bm| % TWO_32
  {
    var n := |bm| % TWO_32;
    var saved := Overwrite(dev, layout.bitmapOffset, bm[..n]);
    assert saved[layout.bitmapOffset..layout.bitmapOffset + n] == bm[..n];
    if i / 8 < n {
      assert Reloaded(layout, dev, bm)[i / 8] == bm[..n][i / 8];
    } else {
      assert Reloaded(layout, dev, bm)[i / 8] == 0;
      ZeroByteBits(i % 8);
    }
  }

  /** So with a bitmap of the size Format gives it, every allocation survives a save and a load exactly below 4 GiB. */
  lemma KeepsBitmapExactly(layout: Layout, dev: seq<byte>)
    requires layout.Sound() && layout.DataOffset() <= |dev| && layout.bitmapBlocks == BlocksForBits(layout.dataBlocks)
    ensures (forall bm | |bm| == layout.BitmapBytes() ::
               Bits(Reloaded(layout, dev, bm), layout.dataBlocks) == Bits(bm, layout.dataBlocks))
       <==> layout.BitmapBytes() < TWO_32
  {
    if layout.BitmapBytes() < TWO_32 {
      forall bm | |bm| == layout.BitmapBytes()
        ensures Bits(Reloaded(layout, dev, bm), layout.dataBlocks) == Bits(bm, layout.dataBlocks)
      {
        forall i | 0 <= i < layout.dataBlocks
          ensures BitAt(Reloaded(layout, dev, bm), i) == BitAt(bm, i)
        {
          ReloadedBit(layout, dev, bm, i);
        }
      }
    } else {
      var last := layout.dataBlocks - 1;
      LastBlockIsLost(layout);
      var bm := PackBits(seq(layout.dataBlocks, _ => true), layout.BitmapBytes());
      ReloadedBit(layout, dev, bm, last);
      assert Bits(bm, layout.dataBlocks)[last] && !Bits(Reloaded(layout, dev, bm), layout.dataBlocks)[last];
    }
  }

  lemma LastBlockIsLost(layout: Layout)
    requires layout.Sound() && layout.bitmapBlocks == BlocksForBits(layout.dataBlocks) && layout.BitmapBytes() >= TWO_32
    ensures (layout.dataBlocks - 1) / 8 >= layout.BitmapBytes() % TWO_32
  {
    BlocksForBitsIsCeiling(layout.dataBlocks);
  }
}
