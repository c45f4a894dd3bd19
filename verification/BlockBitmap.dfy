/** src/data/block_bitmap.cpp: one bit per physical block, packed eight to a byte. */
module Bitmap {
  import opened Bytes

  // ---- bits of a byte ----

  predicate BitOf(b: byte, k: nat)
    requires k < 8
  {
    (b >> k) & 1 == 1
  }

  function Mask(k: nat): byte
    requires k < 8
  {
    1 << k
  }

  lemma MaskValue(k: nat)
    requires k < 8
    ensures Mask(k) == [1, 2, 4, 8, 16, 32, 64, 128][k]
  {
  }

  lemma BitByMask(b: byte, k: nat)
    requires k < 8
    ensures BitOf(b, k) == (b & Mask(k) != 0)
  {
  }

  lemma MasksDisjoint(j: nat, k: nat)
    requires j < 8 && k < 8
    ensures Mask(k) & Mask(j) == if j == k then Mask(k) else 0
    ensures Mask(k) & !Mask(j) == if j == k then 0 else Mask(k)
    ensures Mask(k) != 0
  {
    MaskValue(j);
    MaskValue(k);
  }

  lemma SetByte(b: byte, j: nat, k: nat)
    requires j < 8 && k < 8
    ensures BitOf(b | Mask(j), k) == (j == k || BitOf(b, k))
  {
    BitByMask(b, k);
    BitByMask(b | Mask(j), k);
    MasksDisjoint(j, k);
    assert (b | Mask(j)) & Mask(k) == (b & Mask(k)) | (Mask(k) & Mask(j));
  }

  lemma ClearByte(b: byte, j: nat, k: nat)
    requires j < 8 && k < 8
    ensures BitOf(b & !Mask(j), k) == (j != k && BitOf(b, k))
  {
    BitByMask(b, k);
    BitByMask(b & !Mask(j), k);
    MasksDisjoint(j, k);
    assert (b & !Mask(j)) & Mask(k) == b & (Mask(k) & !Mask(j));
  }

  // ---- the packed bytes as a boolean sequence ----

  predicate BitAt(bm: seq<byte>, i: nat)
    requires i < 8 * |bm|
  {
    BitOf(bm[i / 8], i % 8)
  }

  function Bits(bm: seq<byte>, n: nat): (bits: seq<bool>)
    requires n <= 8 * |bm|
    ensures |bits| == n
    ensures forall i | 0 <= i < n :: bits[i] == BitAt(bm, i)
  {
    seq(n, i requires 0 <= i < n => BitAt(bm, i))
  }

  /** bits[start..start+n), clipped to the sequence, set to `v`. */
  function WithRange(bits: seq<bool>, start: nat, n: nat, v: bool): (bits': seq<bool>)
    ensures |bits'| == |bits|
    ensures forall i | 0 <= i < |bits| :: bits'[i] == if start <= i < start + n then v else bits[i]
  {
    seq(|bits|, i requires 0 <= i < |bits| => if start <= i < start + n then v else bits[i])
  }

  predicate FreeRun(bits: seq<bool>, start: nat, n: nat)
  {
    start + n <= |bits| && forall i | start <= i < start + n :: !bits[i]
  }

  /** `start` is the lowest start of `n` free blocks. */
  ghost predicate FirstFit(bits: seq<bool>, n: nat, start: nat)
  {
    FreeRun(bits, start, n) && forall t: nat | t < start :: !FreeRun(bits, t, n)
  }

  /** No run of `n` free blocks ends at or before block `i`. */
  ghost predicate NoRunUpTo(bits: seq<bool>, n: nat, i: nat)
  {
    forall t: nat | t + n <= i :: !FreeRun(bits, t, n)
  }

  /** One more block brings no run when an allocated block lies in the one new window. */
  lemma NoRunNext(bits: seq<bool>, n: nat, i: nat, blocker: int)
    requires NoRunUpTo(bits, n, i) && i < |bits|
    requires i + 1 - n <= blocker <= i && n > 0
    requires blocker >= 0 ==> bits[blocker]
    ensures NoRunUpTo(bits, n, i + 1)
  {
    forall t: nat | t + n <= i + 1
      ensures !FreeRun(bits, t, n)
    {
      if t + n == i + 1 {
        assert t <= blocker < t + n;
      }
    }
  }

  function CountFree(bits: seq<bool>): (c: nat)
    ensures c <= |bits|
  {
    if bits == [] then 0
    else CountFree(bits[..|bits| - 1]) + if bits[|bits| - 1] then 0 else 1
  }

  /** Allocating a free run lowers the free count by exactly its length, and freeing it restores the count. */
  lemma {:induction false} CountFreeRange(bits: seq<bool>, start: nat, n: nat)
    requires FreeRun(bits, start, n)
    ensures CountFree(WithRange(bits, start, n, true)) == CountFree(bits) - n
    decreases |bits|
  {
    var bits' := WithRange(bits, start, n, true);
    if n == 0 {
      assert bits' == bits;
    } else {
      var last := |bits| - 1;
      var m := if start + n == |bits| then n - 1 else n;
      assert bits'[..last] == WithRange(bits[..last], start, m, true);
      CountFreeRange(bits[..last], start, m);
    }
  }

  lemma SetBitAt(bm: seq<byte>, i: nat, k: nat)
    requires i < 8 * |bm| && k < 8 * |bm|
    ensures BitAt(bm[i / 8 := bm[i / 8] | Mask(i % 8)], k) == (i == k || BitAt(bm, k))
  {
    if k / 8 == i / 8 {
      SetByte(bm[i / 8], i % 8, k % 8);
    }
  }

  lemma ClearBitAt(bm: seq<byte>, i: nat, k: nat)
    requires i < 8 * |bm| && k < 8 * |bm|
    ensures BitAt(bm[i / 8 := bm[i / 8] & !Mask(i % 8)], k) == (i != k && BitAt(bm, k))
  {
    if k / 8 == i / 8 {
      ClearByte(bm[i / 8], i % 8, k % 8);
    }
  }

  lemma ZeroByteBits(k: nat)
    requires k < 8
    ensures !BitOf(0, k)
  {
    BitByMask(0, k);
  }

  /** Bytes of zeros have no bit set. */
  lemma ZeroBits(size: nat, n: nat)
    requires n <= 8 * size
    ensures forall i | 0 <= i < n :: !Bits(Zeros(size), n)[i]
  {
    forall i | 0 <= i < n
      ensures !BitAt(Zeros(size), i)
    {
      ZeroByteBits(i % 8);
    }
  }

  /** Any bits can be packed. */
  lemma PackBits(bits: seq<bool>, size: nat) returns (bm: seq<byte>)
    requires |bits| <= 8 * size
    ensures |bm| == size && Bits(bm, |bits|) == bits
  {
    bm := Zeros(size);
    ZeroBits(size, |bits|);
    for i := 0 to |bits|
      invariant |bm| == size
      invariant forall k | 0 <= k < |bits| :: Bits(bm, |bits|)[k] == (k < i && bits[k])
    {
      if bits[i] {
        ghost var was := bm;
        bm := bm[i / 8 := bm[i / 8] | Mask(i % 8)];
        forall k | 0 <= k < |bits|
          ensures BitAt(bm, k) == (i == k || BitAt(was, k))
        {
          SetBitAt(was, i, k);
        }
      }
    }
  }

  /** Block `i` is start + k for some k below `count`, in 64-bit arithmetic. */
  predicate Reached(start: nat, count: nat, i: nat)
    requires start < TWO_64
  {
    (i + TWO_64 - start) % TWO_64 < count
  }

  /** What Free leaves of the bits. */
  function Freed(bits: seq<bool>, start: nat, count: nat): (bits': seq<bool>)
    requires start < TWO_64
    ensures |bits'| == |bits|
    ensures forall i | 0 <= i < |bits| :: bits'[i] == (bits[i] && !Reached(start, count, i))
  {
    seq(|bits|, i requires 0 <= i < |bits| => bits[i] && !Reached(start, count, i))
  }

  /** One more index. */
  lemma ReachedNext(start: nat, k: nat, i: nat)
    requires start < TWO_64 && k < TWO_64 && i < TWO_64
    ensures Reached(start, k + 1, i) <==> Reached(start, k, i) || i == (start + k) % TWO_64
  {
  }

  /** Where the sum wraps. */
  lemma ReachedWraps(start: nat, count: nat, i: nat)
    requires start < TWO_64 && count < TWO_32 && i < TWO_64
    ensures Reached(start, count, i) <==> start <= i < start + count || i + TWO_64 < start + count
    ensures i + TWO_64 < start + count ==> i < start
  {
  }

  /** Freeing clears exactly the blocks start to start + count, clipped, if the sum stays below 2^64 or the blocks it wraps to
    * are free. */
  lemma FreesRangeExactly(bits: seq<bool>, start: nat, count: nat)
    requires start < TWO_64 && count < TWO_32 && |bits| < TWO_64
    ensures Freed(bits, start, count) == WithRange(bits, start, count, false)
       <==> forall i | 0 <= i < |bits| && i + TWO_64 < start + count :: !bits[i]
  {
    forall i | 0 <= i < |bits|
      ensures Freed(bits, start, count)[i] == WithRange(bits, start, count, false)[i] <==> !(i + TWO_64 < start + count && bits[i])
    {
      ReachedWraps(start, count, i);
    }
  }

  class BlockBitmap {
    var numBlocks: nat
    var bytes: array<byte>

    /** Validate(): the bytes hold at least one bit for every block. */
    ghost predicate Valid()
      reads this, bytes
    {
      numBlocks <= 8 * bytes.Length && numBlocks < TWO_64
    }

    ghost function Contents(): (bits: seq<bool>)
      requires Valid()
      reads this, bytes
    {
      Bits(bytes[..], numBlocks)
    }

    constructor (n: nat)
      requires n < TWO_64
      ensures Valid() && fresh(bytes)
      ensures numBlocks == n && bytes.Length == (n + 7) / 8
      ensures forall i | 0 <= i < n :: !Contents()[i]
    {
      numBlocks := n;
      bytes := new byte[(n + 7) / 8](_ => 0);
    }

    method GetBit(i: nat) returns (b: bool)
      requires Valid() && i < numBlocks
      ensures b == Contents()[i]
    {
      b := BitOf(bytes[i / 8], i % 8);
    }

    method SetBit(i: nat)
      requires Valid() && i < numBlocks
      modifies bytes
      ensures Valid() && Contents() == WithRange(old(Contents()), i, 1, true)
    {
      ghost var bm := bytes[..];
      bytes[i / 8] := bytes[i / 8] | Mask(i % 8);
      assert bytes[..] == bm[i / 8 := bm[i / 8] | Mask(i % 8)];
      forall k | 0 <= k < numBlocks
        ensures BitAt(bytes[..], k) == (i == k || BitAt(bm, k))
      {
        SetBitAt(bm, i, k);
      }
    }

    method ClearBit(i: nat)
      requires Valid() && i < numBlocks
      modifies bytes
      ensures Valid() && Contents() == WithRange(old(Contents()), i, 1, false)
    {
      ghost var bm := bytes[..];
      bytes[i / 8] := bytes[i / 8] & !Mask(i % 8);
      assert bytes[..] == bm[i / 8 := bm[i / 8] & !Mask(i % 8)];
      forall k | 0 <= k < numBlocks
        ensures BitAt(bytes[..], k) == (i != k && BitAt(bm, k))
      {
        ClearBitAt(bm, i, k);
      }
    }

    method FindConsecutiveFree(count: nat) returns (r: Option<nat>)
      requires Valid() && count > 0
      ensures r.Some? ==> FirstFit(Contents(), count, r.value)
      ensures r.None? ==> forall t: nat :: !FreeRun(Contents(), t, count)
    {
      ghost var bits := Contents();
      var consecutive := 0;
      var start: Option<nat> := None;
      for i := 0 to numBlocks
        invariant consecutive < count && consecutive <= i
        invariant consecutive > 0 ==> start == Some(i - consecutive)
        invariant forall k | i - consecutive <= k < i :: !bits[k]
        invariant i > consecutive ==> bits[i - consecutive - 1]
        invariant NoRunUpTo(bits, count, i)
      {
        var b := GetBit(i);
        if !b {
          if consecutive == 0 {
            start := Some(i);
          }
          consecutive := consecutive + 1;
          if consecutive >= count {
            return start;
          }
          NoRunNext(bits, count, i, i - consecutive);
        } else {
          consecutive := 0;
          start := None;
          NoRunNext(bits, count, i, i);
        }
      }
      return None;
    }

    method Allocate(count: nat) returns (r: Option<nat>)
      requires Valid()
      modifies bytes
      ensures Valid()
      ensures r.Some? ==> count > 0 && FirstFit(old(Contents()), count, r.value)
      ensures r.Some? ==> Contents() == WithRange(old(Contents()), r.value, count, true)
      ensures r.Some? ==> CountFree(Contents()) == CountFree(old(Contents())) - count
      ensures r.None? ==> bytes[..] == old(bytes[..])
      ensures r.None? && count > 0 ==> forall t: nat :: !FreeRun(old(Contents()), t, count)
    {
      if count == 0 {
        return None;
      }
      ghost var bits := Contents();
      r := FindConsecutiveFree(count);
      assert Contents() == bits;
      if r.None? {
        return;
      }
      for i := 0 to count
        invariant Valid()
        invariant Contents() == WithRange(bits, r.value, i, true)
      {
        SetBit(r.value + i);
      }
      CountFreeRange(bits, r.value, count);
    }

    /** Free, src/data/block_bitmap.cpp:29-36: the index is a uint64_t sum (see FreesRangeExactly). */
    method Free(start: nat, count: nat)
      requires Valid() && start < TWO_64 && count < TWO_32
      modifies bytes
      ensures Valid() && Contents() == Freed(old(Contents()), start, count)
      ensures start + count <= TWO_64 ==> Contents() == WithRange(old(Contents()), start, count, false)
    {
      ghost var bits := Contents();
      for i := 0 to count
        invariant Valid()
        invariant Contents() == Freed(bits, start, i)
      {
        var index := (start + i) % TWO_64;
        forall k | 0 <= k < numBlocks
          ensures Reached(start, i + 1, k) <==> Reached(start, i, k) || k == index
        {
          ReachedNext(start, i, k);
        }
        if index < numBlocks {
          ClearBit(index);
        }
      }
      FreesRangeExactly(bits, start, count);
    }

    method FreeBlocks() returns (free: nat)
      requires Valid()
      ensures free == CountFree(Contents())
    {
      var used := 0;
      for i := 0 to numBlocks
        invariant used <= i
        invariant i - used == CountFree(Contents()[..i])
      {
        var b := GetBit(i);
        assert Contents()[..i + 1][..i] == Contents()[..i];
        if b {
          used := used + 1;
        }
      }
      assert Contents()[..numBlocks] == Contents();
      free := numBlocks - used;
    }

    /** Adopts the saved bytes, growing them with zeros when they are too few for `n` bits. */
    method Load(data: seq<byte>, n: nat)
      requires n < TWO_64
      modifies this
      ensures Valid() && fresh(bytes) && numBlocks == n
      ensures bytes[..] == data + if |data| < (n + 7) / 8 then Zeros((n + 7) / 8 - |data|) else []
    {
      numBlocks := n;
      var needed := (n + 7) / 8;
      var size := if |data| < needed then needed else |data|;
      bytes := new byte[size](i requires 0 <= i < size => if i < |data| then data[i] else 0);
      assert bytes[..] == data + Zeros(size - |data|);
    }
  }
}
