// Bucket selection and hash-table sizing of the voxel map.
//
// The hash function and FVoxelUtilities::GetHashTableSize are not part of
// this model: the map takes them as parameters. What the map relies on is
// written down in ValidPolicy.
module Hashing {

  /** The largest power of two an int32 table length can hold. */
  const MaxHashSize: nat := 0x4000_0000

  predicate IsPowerOfTwo(n: nat)
    decreases n
  {
    n == 1 || (n >= 2 && n % 2 == 0 && IsPowerOfTwo(n / 2))
  }

  /** A 32-bit hash value (uint32). */
  type Hash32 = h: nat | h < 0x1_0000_0000

  /** Bitwise AND of two naturals, bit by bit from the lowest. */
  function BitAnd(x: nat, y: nat): (r: nat)
    ensures r <= x && r <= y
  {
    if x == 0 || y == 0 then 0
    else 2 * BitAnd(x / 2, y / 2) + (if x % 2 == 1 && y % 2 == 1 then 1 else 0)
  }

  /** The bucket `Hash & (HashSize - 1)` that GetElementIndex selects. */
  function Bucket(h: Hash32, size: nat): (b: nat)
    requires 0 < size <= MaxHashSize
    ensures b < size
  {
    BitAnd(h, size - 1)
  }

  /** The hash shifted right by log2(size): the bits the mask drops. */
  function DroppedBits(x: nat, size: nat): nat
    requires IsPowerOfTwo(size)
    decreases size
  {
    if size == 1 then x else DroppedBits(x / 2, size / 2)
  }

  /** For a power-of-two table, masking with size - 1 keeps exactly the
      remainder of the hash by the table size: the hash is the dropped high
      part times the size plus the bucket. */
  lemma {:induction false} BucketIsRemainder(h: Hash32, size: nat)
    requires 0 < size <= MaxHashSize && IsPowerOfTwo(size)
    ensures h == size * DroppedBits(h, size) + Bucket(h, size)
  {
    MaskSplits(h, size);
  }

  lemma {:induction false} MaskSplits(x: nat, size: nat)
    requires IsPowerOfTwo(size)
    ensures x == size * DroppedBits(x, size) + BitAnd(x, size - 1)
    decreases size
  {
    if size > 1 {
      var half := size / 2;
      assert size == 2 * half;
      MaskSplits(x / 2, half);
      var high := DroppedBits(x / 2, half);
      var low := BitAnd(x / 2, half - 1);
      assert x / 2 == half * high + low;
      assert (size - 1) / 2 == half - 1 && (size - 1) % 2 == 1;
      assert BitAnd(x, size - 1) == 2 * low + x % 2;
      calc {
        size * DroppedBits(x, size) + BitAnd(x, size - 1);
        == (2 * half) * high + 2 * low + x % 2;
        == { DoubleTimes(half, high); }
        2 * (half * high + low) + x % 2;
        == 2 * (x / 2) + x % 2;
        == x;
      }
    }
  }

  lemma DoubleTimes(a: nat, b: nat)
    ensures (2 * a) * b == 2 * (a * b)
  {
  }

  /** The two inputs of GetHashSize: the table size the unseen
      FVoxelUtilities::GetHashTableSize gives for an element count, and the
      allocator's MinHashSize (0 for the default allocator). */
  datatype SizePolicy = SizePolicy(tableSize: nat -> nat, minHashSize: nat)

  /** What the map relies on in its sizing inputs: every table size is a power
      of two that an int32 can hold, larger counts never get smaller tables,
      and the allocator minimum is 0 or a power of two. */
  ghost predicate ValidPolicy(p: SizePolicy)
  {
    && (forall n :: IsPowerOfTwo(p.tableSize(n)) && p.tableSize(n) <= MaxHashSize)
    && (forall m, n :: m <= n ==> p.tableSize(m) <= p.tableSize(n))
    && (p.minHashSize == 0 || (IsPowerOfTwo(p.minHashSize) && p.minHashSize <= MaxHashSize))
  }

  /** GetHashSize: the formula's size, raised to the allocator's minimum. */
  function GetHashSize(p: SizePolicy, n: nat): (size: nat)
    requires ValidPolicy(p)
    ensures IsPowerOfTwo(size) && 0 < size <= MaxHashSize
    ensures p.minHashSize <= size && p.tableSize(n) <= size
  {
    if p.tableSize(n) < p.minHashSize then p.minHashSize else p.tableSize(n)
  }

  /** GetHashSize never shrinks as the element count grows. */
  lemma GetHashSizeMonotone(p: SizePolicy, m: nat, n: nat)
    requires ValidPolicy(p) && m <= n
    ensures GetHashSize(p, m) <= GetHashSize(p, n)
  {
    assert p.tableSize(m) <= p.tableSize(n);
  }

  /** The table-size invariant CheckInvariants asserts for n elements, together
      with the power-of-two shape GetElementIndex checks. */
  ghost predicate SizedFor(p: SizePolicy, n: nat, size: nat)
    requires ValidPolicy(p)
  {
    && (size == 0 || IsPowerOfTwo(size))
    && size <= MaxHashSize
    && (n > 0 ==> GetHashSize(p, n) <= size)
  }

  /** The size Rehash picks: the current size, or GetHashSize(n) when larger. */
  function RehashSize(p: SizePolicy, n: nat, current: nat): (size: nat)
    requires ValidPolicy(p)
    requires current == 0 || IsPowerOfTwo(current)
    requires current <= MaxHashSize
    ensures SizedFor(p, n, size) && current <= size
    ensures IsPowerOfTwo(size) && 0 < size
  {
    if current < GetHashSize(p, n) then GetHashSize(p, n) else current
  }
}
