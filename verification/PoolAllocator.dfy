/**
 * The bucket allocator of iceoryx2-bb/memory/src/pool_allocator.rs over an index
 * set that hands out each free bucket index once.
 */
module PoolAllocator {
  import opened Prelude
  import opened Math

  datatype Layout = Layout(size: nat, alignment: nat)

  datatype AllocationError = SizeTooLarge | AlignmentFailure | OutOfMemory
  datatype GrowError = GrowWouldShrink | GrowAlignmentFailure | GrowOutOfMemory
  datatype ShrinkError = ShrinkWouldGrow | ShrinkAlignmentFailure

  /** Rust only admits powers of two as alignments. */
  ghost predicate IsPowerOfTwo(n: nat)
    decreases n
  {
    n == 1 || (n > 1 && n % 2 == 0 && IsPowerOfTwo(n / 2))
  }

  /** Of two powers of two the smaller divides the larger. */
  lemma {:induction false} PowerDivides(small: nat, large: nat)
    requires IsPowerOfTwo(small) && IsPowerOfTwo(large) && small <= large
    ensures small > 0 && large % small == 0
    decreases large
  {
    if small == 1 {
    } else {
      PowerDivides(small / 2, large / 2);
      var q := (large / 2) / (small / 2);
      DivModEquation(large / 2, small / 2);
      assert large == q * small by { MulAssociates(q, small / 2, 2); }
      MultipleIsAligned(q, small);
    }
  }

  /** How many buckets fit behind the first aligned address. */
  function NumberOfBuckets(bucket: Layout, ptr: nat, size: nat): (n: nat)
    requires bucket.size > 0 && bucket.alignment > 0 && Align(ptr, bucket.alignment) <= ptr + size
  {
    Quotient(ptr + size - Align(ptr, bucket.alignment), Align(bucket.size, bucket.alignment))
  }

  /** As many padded buckets as fit, and no more. */
  lemma BucketCountIsMaximal(bucket: Layout, ptr: nat, size: nat)
    requires bucket.size > 0 && bucket.alignment > 0 && Align(ptr, bucket.alignment) <= ptr + size
    ensures var n := NumberOfBuckets(bucket, ptr, size);
            var first, stride := Align(ptr, bucket.alignment), Align(bucket.size, bucket.alignment);
            first + n * stride <= ptr + size < first + (n + 1) * stride
  {
    QuotientFits(ptr + size - Align(ptr, bucket.alignment), Align(bucket.size, bucket.alignment));
  }

  /** The buckets `0 .. n` lie one after the other inside the memory. */
  lemma BucketsFit(bucket: Layout, ptr: nat, size: nat, n: nat, i: nat)
    requires bucket.size > 0 && bucket.alignment > 0 && Align(ptr, bucket.alignment) <= ptr + size
    requires n <= NumberOfBuckets(bucket, ptr, size) && i < n
    ensures ptr <= Align(ptr, bucket.alignment) + i * bucket.size
    ensures Align(ptr, bucket.alignment) + i * bucket.size + bucket.size <= ptr + size
  {
    var start := Align(ptr, bucket.alignment);
    FitsBehind(ptr + size - start, Align(bucket.size, bucket.alignment), bucket.size, i);
  }

  /** The number of buckets as the source computes it, in wrapping 64-bit arithmetic. */
  function WordBuckets(bucket: Layout, ptr: nat, size: nat): nat
    requires bucket.size > 0 && bucket.alignment > 0 && Align(ptr, bucket.alignment) < WORD
  {
    Quotient(WordSub(ptr + size, Align(ptr, bucket.alignment)), Align(bucket.size, bucket.alignment))
  }

  ghost predicate InsideRegion(bucket: Layout, ptr: nat, size: nat, i: nat)
    requires bucket.alignment > 0
  {
    Align(ptr, bucket.alignment) + i * bucket.size + bucket.size <= ptr + size
  }

  /** All buckets lie inside the region exactly when the region is not shorter than the padding in front of them. */
  lemma BucketsInsideIff(bucket: Layout, ptr: nat, size: nat)
    requires bucket.size > 0 && bucket.alignment > 0 && bucket.size + bucket.alignment - 1 <= ISIZE_MAX
    requires ptr + size < WORD && Align(ptr, bucket.alignment) < WORD
    ensures (forall i: nat :: i < WordBuckets(bucket, ptr, size) ==> InsideRegion(bucket, ptr, size, i)) <==>
            Align(ptr, bucket.alignment) <= ptr + size
  {
    var first, stride := Align(ptr, bucket.alignment), Align(bucket.size, bucket.alignment);
    if first <= ptr + size {
      forall i: nat | i < WordBuckets(bucket, ptr, size) ensures InsideRegion(bucket, ptr, size, i) {
        BucketsFit(bucket, ptr, size, NumberOfBuckets(bucket, ptr, size), i);
      }
    } else {
      QuotientFits(WordSub(ptr + size, first), stride);
      assert WordBuckets(bucket, ptr, size) > 0;
      assert !InsideRegion(bucket, ptr, size, 0);
    }
  }

  /** An empty region at an odd address: buckets are counted, and none of them is inside. */
  lemma ShortRegionIsOverrun()
    ensures var bucket := Layout(8, 8);
            Align(1, 8) == 8 && WordBuckets(bucket, 1, 0) > 0 && !InsideRegion(bucket, 1, 0, 0)
  {
    QuotientFits(WordSub(1, 8), 8);
  }

  lemma FitsBehind(total: nat, stride: nat, bytes: nat, i: nat)
    requires 0 < bytes <= stride && i < Quotient(total, stride)
    ensures 0 <= i * bytes && i * bytes + bytes <= total
  {
    QuotientFits(total, stride);
    MulMonotone(i + 1, Quotient(total, stride), stride);
    MulFactorMonotone(i + 1, bytes, stride);
    MulDistributes(i, 1, bytes);
  }

  lemma MulFactorMonotone(k: nat, a: nat, b: nat)
    requires a <= b
    ensures k * a <= k * b
  {
  }

  class PoolAllocator {
    const start: nat
    const size: nat
    const bucketSize: nat
    const bucketAlignment: nat
    const buckets: nat
    /** The memory region the allocator was given. */
    ghost const ptr: nat
    var free: set<nat>
    /** The buckets handed out, with the size of the chunk each one holds. */
    ghost var outstanding: map<nat, nat>

    ghost predicate Valid()
      reads this
    {
      && bucketSize > 0 && IsPowerOfTwo(bucketAlignment) && bucketAlignment > 0
      && start == Align(ptr, bucketAlignment) <= ptr + size
      && buckets <= NumberOfBuckets(Layout(bucketSize, bucketAlignment), ptr, size)
      && free !! outstanding.Keys
      && (forall i :: i in free || i in outstanding <==> 0 <= i < buckets)
      && (forall i :: i in outstanding ==> outstanding[i] <= bucketSize)
    }

    function Address(index: nat): nat { start + index * bucketSize }

    constructor (bucket: Layout, ptr: nat, size: nat, maxBuckets: nat)
      requires bucket.size > 0 && IsPowerOfTwo(bucket.alignment) && bucket.alignment > 0
      requires Align(ptr, bucket.alignment) <= ptr + size
      ensures Valid() && outstanding == map[]
      ensures start == Align(ptr, bucket.alignment) && this.size == size && this.ptr == ptr
      ensures bucketSize == bucket.size && bucketAlignment == bucket.alignment
      ensures buckets == var n := NumberOfBuckets(bucket, ptr, size); if n < maxBuckets then n else maxBuckets
    {
      start, this.size, this.ptr := Align(ptr, bucket.alignment), size, ptr;
      bucketSize, bucketAlignment := bucket.size, bucket.alignment;
      var n := NumberOfBuckets(bucket, ptr, size);
      buckets := if n < maxBuckets then n else maxBuckets;
      free := UpTo(if n < maxBuckets then n else maxBuckets);
      outstanding := map[];
    }

    method Allocate(layout: Layout) returns (result: Result<nat, AllocationError>)
      requires Valid()
      modifies this
      ensures Valid()
      ensures result == Err(SizeTooLarge) <==> layout.size > bucketSize
      ensures result == Err(AlignmentFailure) <==> layout.size <= bucketSize && layout.alignment > bucketAlignment
      ensures result == Err(OutOfMemory) <==>
                layout.size <= bucketSize && layout.alignment <= bucketAlignment && |old(outstanding)| == buckets
      ensures result.Err? ==> free == old(free) && outstanding == old(outstanding)
      ensures result.Ok? ==> exists i :: i in old(free) && result.value == Address(i)
                                         && free == old(free) - {i} && outstanding == old(outstanding)[i := layout.size]
    {
      if layout.size > bucketSize {
        return Err(SizeTooLarge);
      }
      if layout.alignment > bucketAlignment {
        return Err(AlignmentFailure);
      }
      FreePlusOutstanding();
      if free == {} {
        return Err(OutOfMemory);
      }
      var i :| i in free;
      free := free - {i};
      outstanding := outstanding[i := layout.size];
      return Ok(Address(i));
    }

    /** The index computation undoes the address computation, and accepts every address it is given. */
    method GetIndex(position: nat) returns (index: nat)
      requires Valid() && exists i :: i in outstanding && position == Address(i)
      ensures index in outstanding && position == Address(index)
    {
      ghost var i :| i in outstanding && position == Address(i);
      AddressIsAccepted(i);
      assert !(position < start || position > start + size || (position - start) % bucketSize != 0);
      index := Quotient(position - start, bucketSize);
    }

    /** The address of a bucket passes the check of the pointer, and the division gives the bucket back. */
    lemma AddressIsAccepted(i: nat)
      requires Valid() && i in outstanding
      ensures start <= Address(i) <= start + size
      ensures (Address(i) - start) % bucketSize == 0 && Quotient(Address(i) - start, bucketSize) == i
    {
      assert Address(i) - start == i * bucketSize;
      MultipleIsAligned(i, bucketSize);
      QuotientOfMultiple(i, bucketSize);
      AddressIsInside(i);
    }

    lemma AddressIsInside(i: nat)
      requires Valid() && i in outstanding
      ensures start <= Address(i) <= start + size
    {
      BucketsFit(Layout(bucketSize, bucketAlignment), ptr, size, buckets, i);
      MulMonotone(0, i, bucketSize);
    }

    method DeallocateBucket(position: nat)
      requires Valid() && exists i :: i in outstanding && position == Address(i)
      modifies this
      ensures Valid()
      ensures exists i :: i in old(outstanding) && position == Address(i)
                          && free == old(free) + {i} && outstanding == old(outstanding) - {i}
    {
      var index := GetIndex(position);
      free := free + {index};
      outstanding := outstanding - {index};
      assert index in old(outstanding);
    }

    method Grow(position: nat, oldLayout: Layout, newLayout: Layout) returns (result: Result<nat, GrowError>)
      requires Valid() && exists i :: i in outstanding && position == Address(i)
      modifies this`outstanding
      ensures Valid()
      ensures result == Err(GrowWouldShrink) <==> oldLayout.size >= newLayout.size
      ensures result == Err(GrowAlignmentFailure) <==>
                oldLayout.size < newLayout.size && bucketAlignment < newLayout.alignment
      ensures result == Err(GrowOutOfMemory) <==>
                oldLayout.size < newLayout.size && newLayout.alignment <= bucketAlignment && bucketSize < newLayout.size
      ensures result.Ok? ==> result.value == position && exists i ::
                i in old(outstanding) && position == Address(i) && outstanding == old(outstanding)[i := newLayout.size]
      ensures result.Err? ==> outstanding == old(outstanding)
    {
      if oldLayout.size >= newLayout.size {
        return Err(GrowWouldShrink);
      }
      if bucketAlignment < newLayout.alignment {
        return Err(GrowAlignmentFailure);
      }
      if bucketSize < newLayout.size {
        return Err(GrowOutOfMemory);
      }
      ghost var index := GetIndex(position);
      outstanding := outstanding[index := newLayout.size];
      return Ok(position);
    }

    /** There is no check against the bucket size: the caller's old layout bounds the new one. */
    method Shrink(position: nat, oldLayout: Layout, newLayout: Layout) returns (result: Result<nat, ShrinkError>)
      requires Valid() && exists i :: i in outstanding && position == Address(i) && oldLayout.size == outstanding[i]
      modifies this`outstanding
      ensures Valid()
      ensures result == Err(ShrinkWouldGrow) <==> oldLayout.size <= newLayout.size
      ensures result == Err(ShrinkAlignmentFailure) <==>
                oldLayout.size > newLayout.size && bucketAlignment < newLayout.alignment
      ensures result.Ok? ==> result.value == position && exists i ::
                i in old(outstanding) && position == Address(i) && outstanding == old(outstanding)[i := newLayout.size]
      ensures result.Err? ==> outstanding == old(outstanding)
    {
      if oldLayout.size <= newLayout.size {
        return Err(ShrinkWouldGrow);
      }
      if bucketAlignment < newLayout.alignment {
        return Err(ShrinkAlignmentFailure);
      }
      ghost var index := GetIndex(position);
      outstanding := outstanding[index := newLayout.size];
      return Ok(position);
    }

    /** Free and outstanding buckets always add up to the number of buckets. */
    lemma FreePlusOutstanding()
      requires Valid()
      ensures |free| + |outstanding| == buckets
    {
      assert free + outstanding.Keys == UpTo(buckets);
      assert |free + outstanding.Keys| == |free| + |outstanding.Keys|;
    }

    /** Outstanding chunks are inside the memory and do not overlap. */
    lemma ChunksAreDisjoint(i: nat, j: nat)
      requires Valid() && i in outstanding && j in outstanding && i < j
      ensures ptr <= Address(i) && Address(i) + outstanding[i] <= Address(j) && Address(j) + outstanding[j] <= ptr + size
    {
      BucketsFit(Layout(bucketSize, bucketAlignment), ptr, size, buckets, i);
      BucketsFit(Layout(bucketSize, bucketAlignment), ptr, size, buckets, j);
      MulMonotone(i + 1, j, bucketSize);
      MulDistributes(i, 1, bucketSize);
    }

    ghost predicate AlignedTo(i: nat, a: nat) {
      a > 0 && Address(i) % a == 0
    }

    lemma BucketIsAligned(i: nat, a: nat)
      requires Valid() && (i == 0 || bucketSize % bucketAlignment == 0) && IsPowerOfTwo(a) && a <= bucketAlignment
      ensures AlignedTo(i, a)
    {
      PowerDivides(a, bucketAlignment);
      MultipleOfDivisor(start, bucketAlignment, a);
      if i > 0 {
        MultipleOfDivisor(bucketSize, bucketAlignment, a);
        SumOfMultiples(start, i, bucketSize, a);
      }
    }

    lemma SecondBucketIsMisaligned()
      requires Valid() && bucketSize % bucketAlignment != 0
      ensures !AlignedTo(1, bucketAlignment)
    {
      if (start + bucketSize) % bucketAlignment == 0 {
        DifferenceOfMultiples(start + bucketSize, start, bucketAlignment);
      }
    }

    ghost predicate AllAligned() {
      forall i, a :: 0 <= i < buckets && 0 < a <= bucketAlignment && IsPowerOfTwo(a) ==> AlignedTo(i, a)
    }

    /**
     * All buckets meet every accepted alignment exactly when the bucket size is a
     * multiple of the bucket alignment, or there is no second bucket.
     */
    lemma AddressesAlignedIff()
      requires Valid()
      ensures AllAligned() <==> (buckets <= 1 || bucketSize % bucketAlignment == 0)
    {
      if buckets <= 1 || bucketSize % bucketAlignment == 0 {
        forall i, a | 0 <= i < buckets && 0 < a <= bucketAlignment && IsPowerOfTwo(a) ensures AlignedTo(i, a) {
          BucketIsAligned(i, a);
        }
      } else {
        SecondBucketIsMisaligned();
      }
    }
  }

  lemma MultipleOfDivisor(x: nat, m: nat, n: nat)
    requires m > 0 && n > 0 && x % m == 0 && m % n == 0
    ensures x % n == 0
  {
    ModOfMod(x, m, n);
  }

  lemma SumOfMultiples(s: nat, i: nat, b: nat, a: nat)
    requires a > 0 && s % a == 0 && b % a == 0
    ensures (s + i * b) % a == 0
  {
    DivModEquation(s, a);
    DivModEquation(b, a);
    MulAssociates(i, b / a, a);
    MulDistributes(s / a, i * (b / a), a);
    DivModUnique(s + i * b, a, s / a + i * (b / a), 0);
  }

  lemma DifferenceOfMultiples(x: nat, y: nat, a: nat)
    requires a > 0 && x % a == 0 && y % a == 0
    ensures (x - y) % a == 0
  {
    DivModEquation(x, a);
    DivModEquation(y, a);
    MulDistributes(x / a, y / a, a);
    DivModUnique(x - y, a, x / a - y / a, 0);
  }
}
