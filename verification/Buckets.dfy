/** The sizes encrypted records are padded to. */
module Buckets {
  import opened Bytes
  import opened Bits

  const MAX_RECORD := 16 * 1024 * 1024

  const BUCKETS: set<int> := {
    1024, 2048, 3072, 4096,
    8192, 12288, 16384, 20480, 24576, 28672, 32768, 36864, 40960, 45056, 49152, 53248, 57344, 61440, 65536,
    131072, 262144, 524288, 1048576, 2097152, 4194304, 8388608, 16777216
  }

  // The number of binary digits of n.
  function BitLength(n: nat): nat {
    if n == 0 then 0 else 1 + BitLength(n / 2)
  }

  function LeastRecordBucket(length: int): Option<int> {
    if length < 0 || length > MAX_RECORD then None
    else if length <= 1024 then Some(1024)
    else if length <= 4096 then Some((length + 1023) / 1024 * 1024)
    else if length <= 65536 then Some((length + 4095) / 4096 * 4096)
    else Some(Pow2(BitLength(length - 1)))
  }

  lemma {:induction false} BitLengthBounds(n: nat)
    requires n > 0
    ensures BitLength(n) > 0 && Pow2(BitLength(n) - 1) <= n < Pow2(BitLength(n))
  {
    if n > 1 {
      BitLengthBounds(n / 2);
      assert Pow2(BitLength(n) - 1) == 2 * Pow2(BitLength(n / 2) - 1);
    }
  }

  lemma {:induction false} Pow2Grows(a: nat, b: nat)
    requires a < b
    ensures 2 * Pow2(a) <= Pow2(b)
  {
    if a + 1 < b { Pow2Grows(a, b - 1); }
  }

  lemma LargePowers()
    ensures Pow2(16) == 65536 && Pow2(17) == 131072 && Pow2(18) == 262144 && Pow2(19) == 524288
    ensures Pow2(20) == 1048576 && Pow2(21) == 2097152 && Pow2(22) == 4194304 && Pow2(23) == 8388608
    ensures Pow2(24) == 16777216
  {
    assert Pow2(4) == 16;
    assert Pow2(8) == 256;
    assert Pow2(12) == 4096;
  }

  // Above 64 KiB the bucket is the power of two that is at least the length and below twice that.
  lemma LargeBucket(length: int)
    requires 65536 < length <= MAX_RECORD
    ensures var b := LeastRecordBucket(length).value;
            b in {131072, 262144, 524288, 1048576, 2097152, 4194304, 8388608, 16777216}
            && length <= b <= 2 * (length - 1)
  {
    var n := BitLength(length - 1);
    BitLengthBounds(length - 1);
    LargePowers();
    if n <= 16 {
      if n < 16 { Pow2Grows(n, 16); }
      assert false;
    } else if n > 24 {
      if n > 25 { Pow2Grows(24, n - 1); }
      assert false;
    }
  }

  // A length has a bucket exactly from 0 to 16 MiB, and it is the least one that holds it.
  lemma BucketIsLeast(length: int)
    ensures LeastRecordBucket(length).Some? <==> 0 <= length <= MAX_RECORD
    ensures 0 <= length <= MAX_RECORD ==>
              var b := LeastRecordBucket(length).value;
              b in BUCKETS && length <= b && forall s :: s in BUCKETS && length <= s ==> b <= s
  {
    if 65536 < length <= MAX_RECORD { LargeBucket(length); }
  }

  lemma BucketsAreMonotone(a: int, b: int)
    requires 0 <= a <= b <= MAX_RECORD
    ensures LeastRecordBucket(a).value <= LeastRecordBucket(b).value
  {
    BucketIsLeast(a);
    BucketIsLeast(b);
    hide LeastRecordBucket;
  }

  // Padding what is already padded changes nothing; every bucket is its own.
  lemma BucketsAreFixed(size: int)
    requires size in BUCKETS
    ensures LeastRecordBucket(size) == Some(size)
  {
    BucketIsLeast(size);
    hide LeastRecordBucket;
  }

  // Padding never doubles a length of 1025 or more.
  lemma PaddingIsBounded(length: int)
    requires 1025 <= length <= MAX_RECORD
    ensures LeastRecordBucket(length).value <= 2 * (length - 1)
  {
    if 65536 < length { LargeBucket(length); }
  }
}
