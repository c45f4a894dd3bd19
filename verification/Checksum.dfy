/** Crc under a name that keeps its definition out of sight: the file pipeline needs only that it is a function of the bytes. */
module Checksum {
  import opened Bytes
  import opened Crc32

  /** Always true; names the data where the quantifier of IsCrc is to be instantiated with it. */
  predicate Asked(data: seq<byte>) {
    true
  }

  ghost predicate IsCrc(f: seq<byte> -> bv32) {
    forall data {:trigger Asked(data)} | Asked(data) :: f(data) == Crc(data)
  }

  ghost function Sum(data: seq<byte>): bv32 {
    assert IsCrc(Crc);
    var f: seq<byte> -> bv32 :| IsCrc(f);
    f(data)
  }

  lemma SumIsCrc(data: seq<byte>)
    ensures Sum(data) == Crc(data)
  {
    assert Asked(data);
  }

  method ComputeSum(data: seq<byte>) returns (crc: bv32)
    ensures crc == Sum(data)
  {
    crc := ComputeCRC32(data);
    SumIsCrc(data);
  }
}
