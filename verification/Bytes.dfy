/** Bytes, byte ranges of a device, and the little-endian integer fields of the on-disk records. */
module Bytes {

  type byte = bv8

  /** Ranges of uint32_t and uint64_t. */
  const TWO_32: nat := 0x1_0000_0000
  const TWO_64: nat := 0x1_0000_0000_0000_0000

  function Min(a: nat, b: nat): nat {
    if a <= b then a else b
  }

  datatype Option<+T> = None | Some(value: T)

  /** `n` zero bytes, as a value-initialised std::vector<char> holds. */
  function Zeros(n: nat): (s: seq<byte>)
    ensures |s| == n && forall i | 0 <= i < n :: s[i] == 0
  {
    seq(n, i => 0)
  }

  /** `dev` after `buf` was written at byte `off`. */
  function Overwrite(dev: seq<byte>, off: nat, buf: seq<byte>): (dev': seq<byte>)
    requires off + |buf| <= |dev|
    ensures |dev'| == |dev|
    ensures dev'[off..off + |buf|] == buf
    ensures forall i | 0 <= i < |dev| && !(off <= i < off + |buf|) :: dev'[i] == dev[i]
  {
    dev[..off] + buf + dev[off + |buf|..]
  }

  /** An interrupted write: every byte of the range holds its old or its new value, all others are untouched. */
  ghost predicate Torn(dev: seq<byte>, off: nat, buf: seq<byte>, dev': seq<byte>)
  {
    && off + |buf| <= |dev| == |dev'|
    && (forall i | 0 <= i < |dev| && !(off <= i < off + |buf|) :: dev'[i] == dev[i])
    && (forall i | off <= i < off + |buf| :: dev'[i] == dev[i] || dev'[i] == buf[i - off])
  }

  lemma OverwriteIsTorn(dev: seq<byte>, off: nat, buf: seq<byte>)
    requires off + |buf| <= |dev|
    ensures Torn(dev, off, buf, Overwrite(dev, off, buf))
  {
    var dev' := Overwrite(dev, off, buf);
    forall i | off <= i < off + |buf|
      ensures dev'[i] == buf[i - off]
    {
      assert dev'[off..off + |buf|][i - off] == dev'[i];
    }
  }

  /** A write that stopped after its first `k` bytes is torn. */
  lemma PrefixIsTorn(dev: seq<byte>, off: nat, buf: seq<byte>, k: nat)
    requires off + |buf| <= |dev| && k <= |buf|
    ensures Torn(dev, off, buf, Overwrite(dev, off, buf[..k]))
  {
    OverwriteIsTorn(dev, off, buf[..k]);
    var dev' := Overwrite(dev, off, buf[..k]);
    forall i | off <= i < off + k
      ensures dev'[i] == buf[i - off]
    {
      assert dev'[off..off + k][i - off] == dev'[i];
    }
  }

  /** Ranges apart from a torn write keep their bytes. */
  lemma TornElsewhere(dev: seq<byte>, off: nat, buf: seq<byte>, dev': seq<byte>, lo: nat, hi: nat)
    requires Torn(dev, off, buf, dev')
    requires lo <= hi <= |dev|
    requires hi <= off || off + |buf| <= lo
    ensures dev'[lo..hi] == dev[lo..hi]
  {
    forall i | 0 <= i < hi - lo
      ensures dev'[lo..hi][i] == dev[lo..hi][i]
    {
      assert dev'[lo + i] == dev[lo + i];
    }
  }

  // ---- integer fields ----

  function Power256(k: nat): (p: nat)
    ensures p > 0
  {
    if k == 0 then 1 else 256 * Power256(k - 1)
  }

  /** The `k` low bytes of `n`, least significant first. */
  function EncodeLE(n: nat, k: nat): (s: seq<byte>)
    ensures |s| == k
  {
    if k == 0 then [] else [(n % 256) as byte] + EncodeLE(n / 256, k - 1)
  }

  function DecodeLE(s: seq<byte>): nat
  {
    if s == [] then 0 else s[0] as int + 256 * DecodeLE(s[1..])
  }

  lemma {:induction false} DecodeEncodeLE(n: nat, k: nat)
    requires n < Power256(k)
    ensures DecodeLE(EncodeLE(n, k)) == n
  {
    if k > 0 {
      assert n / 256 < Power256(k - 1);
      DecodeEncodeLE(n / 256, k - 1);
      assert EncodeLE(n, k)[1..] == EncodeLE(n / 256, k - 1);
      assert EncodeLE(n, k)[0] == (n % 256) as byte;
      ByteValue(n % 256);
    }
  }

  lemma NextByte(b: byte)
    requires b != 255
    ensures (b + 1) as int == b as int + 1
  {
  }

  lemma {:induction false} HasByte(n: nat) returns (b: byte)
    requires n < 256
    ensures b as int == n
  {
    if n == 0 {
      b := 0;
    } else {
      b := HasByte(n - 1);
      NextByte(b);
      b := b + 1;
    }
  }

  lemma ByteBack(b: byte)
    ensures (b as int) as byte == b
  {
  }

  lemma ByteValue(n: nat)
    requires n < 256
    ensures (n as byte) as int == n
  {
    var b := HasByte(n);
    ByteBack(b);
  }

  /** A further byte has the weight 256^k: fields are little-endian. */
  lemma {:induction false} DecodeAppend(s: seq<byte>, b: byte)
    ensures DecodeLE(s + [b]) == DecodeLE(s) + b as int * Power256(|s|)
    decreases |s|
  {
    var t := s + [b];
    if s == [] {
      assert t[1..] == [];
    } else {
      assert t[1..] == s[1..] + [b] && t[0] == s[0];
      DecodeAppend(s[1..], b);
      Reorder(DecodeLE(s[1..]), b as int, Power256(|s| - 1));
      assert DecodeLE(t) == s[0] as int + 256 * DecodeLE(t[1..]);
    }
  }

  lemma Reorder(d: nat, b: nat, p: nat)
    ensures 256 * (d + b * p) == 256 * d + b * (256 * p)
  {
  }

  lemma {:induction false} EncodeDecodeLE(s: seq<byte>)
    ensures EncodeLE(DecodeLE(s), |s|) == s
  {
    if s != [] {
      EncodeDecodeLE(s[1..]);
      var n := DecodeLE(s);
      assert n / 256 == DecodeLE(s[1..]) && n % 256 == s[0] as int;
      ByteBack(s[0]);
    }
  }

  lemma PowerValues()
    ensures Power256(4) == 0x1_0000_0000
    ensures Power256(8) == 0x1_0000_0000_0000_0000
  {
    assert Power256(2) == 65536;
    assert Power256(4) == 65536 * 65536;
    assert Power256(6) == 65536 * 65536 * 65536;
  }

  /** A 32-bit word as memcpy lays it out. */
  function EncodeWord(w: bv32): (s: seq<byte>)
    ensures |s| == 4
  {
    [(w & 0xFF) as byte, ((w >> 8) & 0xFF) as byte, ((w >> 16) & 0xFF) as byte, ((w >> 24) & 0xFF) as byte]
  }

  function DecodeWord(s: seq<byte>): bv32
    requires |s| == 4
  {
    (s[0] as bv32) | ((s[1] as bv32) << 8) | ((s[2] as bv32) << 16) | ((s[3] as bv32) << 24)
  }

  lemma DecodeEncodeWord(w: bv32)
    ensures DecodeWord(EncodeWord(w)) == w
  {
  }

  lemma BytesOfWord(a: byte, b: byte, c: byte, d: byte)
    ensures var w := (a as bv32) | ((b as bv32) << 8) | ((c as bv32) << 16) | ((d as bv32) << 24);
            && (w & 0xFF) as byte == a && ((w >> 8) & 0xFF) as byte == b
            && ((w >> 16) & 0xFF) as byte == c && ((w >> 24) & 0xFF) as byte == d
  {
  }

  lemma EncodeDecodeWord(s: seq<byte>)
    requires |s| == 4
    ensures EncodeWord(DecodeWord(s)) == s
  {
    BytesOfWord(s[0], s[1], s[2], s[3]);
  }
}
