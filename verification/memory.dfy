/**
 * The MemoryManager of wikilator.cpp: a bump allocator over one pool, with a
 * RAM budget of MAX_RAM bytes counted over every successful allocation.
 *
 * posix_memalign, free, perror and exit are not modelled as calls: whether
 * posix_memalign succeeds is a parameter, and a call that would end the
 * process with exit(1) returns the outcome Halted.
 */
module Memory {
  import opened Words

  const MAX_RAM: nat := 10 * 1024 * 1024 * 1024
  const CACHE_LINE: nat := 64

  /** How a call to allocate ends. */
  datatype Allocation =
    | Halted             // exit(1): a critical request over budget, or posix_memalign failed
    | Null               // nullptr: a non-critical request over budget
    | InPool(offset: nat)  // pool + offset
    | FreshBlock         // a new block from posix_memalign

  /** The manager's four fields; hasPool stands for `pool != nullptr`. */
  datatype MemState = MemState(allocatedBytes: nat, hasPool: bool, poolSize: nat, poolOffset: nat)

  /** What every reachable state satisfies: within budget, pool bump offset within the pool. */
  predicate Invariant(s: MemState)
  {
    && s.allocatedBytes <= MAX_RAM
    && s.poolOffset <= s.poolSize < TWO64
    && (!s.hasPool ==> s.poolOffset == 0)
    && (s.hasPool ==> s.poolSize <= MAX_RAM)
  }

  /** `(offset + alignment - 1) & ~(alignment - 1)` on size_t. */
  function AlignUp(offset: nat, alignment: nat): nat
    requires offset < TWO64 && alignment < TWO64
  {
    And((offset + alignment - 1) % TWO64, (TWO64 - alignment) % TWO64)
  }

  /** For a power-of-two alignment the rounding gives the least multiple of alignment at or above offset. */
  lemma AlignUpIsLeastMultiple(offset: nat, alignment: nat)
    requires IsPow2(alignment) && alignment < TWO64 && offset + alignment <= TWO64
    ensures AlignUp(offset, alignment) % alignment == 0
    ensures offset <= AlignUp(offset, alignment) < offset + alignment
  {
    var k := Log2(alignment);
    var x := offset + alignment - 1;
    assert AlignUp(offset, alignment) == x - x % alignment by {
      ExponentBelow64(alignment);
      AlignUpClears(offset, alignment, k);
    }
    RoundDown(x, alignment);
  }

  /** A power of two below 2^64 has an exponent below 64. */
  lemma ExponentBelow64(a: nat)
    requires IsPow2(a) && a < TWO64
    ensures Log2(a) < 64
  {
    Pow2Of64();
    if Log2(a) >= 64 {
      Pow2Mono(64, Log2(a));
    }
  }

  /** The mask `~(2^k - 1)` clears the low k bits of the rounded-up sum. */
  lemma AlignUpClears(offset: nat, alignment: nat, k: nat)
    requires alignment == Pow2(k) && k < 64 && alignment < TWO64 && offset + alignment <= TWO64
    ensures AlignUp(offset, alignment) == (offset + alignment - 1) - (offset + alignment - 1) % alignment
  {
    AlignUpNoWrap(offset, alignment);
    Pow2Of64();
    AndClearLow(offset + alignment - 1, k, 64);
  }

  /** Neither size_t expression in AlignUp wraps. */
  lemma AlignUpNoWrap(offset: nat, alignment: nat)
    requires 1 <= alignment < TWO64 && offset + alignment <= TWO64
    ensures AlignUp(offset, alignment) == And(offset + alignment - 1, TWO64 - alignment)
  {
    NoWrap(offset + alignment - 1);
    NoWrap(TWO64 - alignment);
  }

  /** `x - x % a` is the multiple of a in (x - a, x]. */
  lemma RoundDown(x: nat, a: nat)
    requires a > 0
    ensures (x - x % a) % a == 0 && x - a < x - x % a <= x
  {
    DivMod(x, a);
    ModUnique(x - x % a, a, x / a, 0);
  }

  /**
   * One call of allocate(size, alignment, critical), with the source's
   * comparisons and sums taken on unbounded integers.
   */
  function AllocateStep(s: MemState, size: nat, alignment: nat, critical: bool, memalignOk: bool)
    : (res: (MemState, Allocation))
    requires s.poolOffset < TWO64 && alignment < TWO64
    ensures res.1 == Null <==> !critical && s.allocatedBytes + size > MAX_RAM
    ensures res.1 == Halted <==> ((s.allocatedBytes + size > MAX_RAM && critical)
                                 || (s.allocatedBytes + size <= MAX_RAM && !res.1.InPool? && !memalignOk))
    ensures res.1 == Null || res.1 == Halted ==> res.0 == s
    ensures res.1.InPool? || res.1.FreshBlock? ==> res.0.allocatedBytes == s.allocatedBytes + size <= MAX_RAM
    ensures res.1.InPool? <==> && s.allocatedBytes + size <= MAX_RAM && s.hasPool
                               && AlignUp(s.poolOffset, alignment) + size <= s.poolSize
    ensures res.1.InPool? ==> res.1.offset == AlignUp(s.poolOffset, alignment)
    ensures res.1.InPool? ==> s.hasPool && res.0.poolOffset == res.1.offset + size <= s.poolSize
    ensures !res.1.InPool? ==> res.0.poolOffset == s.poolOffset
    ensures res.0.hasPool == s.hasPool && res.0.poolSize == s.poolSize
    ensures Invariant(s) ==> Invariant(res.0)
  {
    if s.allocatedBytes + size > MAX_RAM then
      (s, if critical then Halted else Null)
    else
      var aligned := AlignUp(s.poolOffset, alignment);
      if s.hasPool && aligned + size <= s.poolSize then
        (s.(poolOffset := aligned + size, allocatedBytes := s.allocatedBytes + size), InPool(aligned))
      else if !memalignOk then
        (s, Halted)
      else
        (s.(allocatedBytes := s.allocatedBytes + size), FreshBlock)
  }

  /** A block handed out of the pool starts on an aligned offset at or after the old bump offset. */
  lemma PoolBlockAligned(s: MemState, size: nat, alignment: nat, critical: bool, memalignOk: bool)
    requires Invariant(s) && IsPow2(alignment) && alignment <= CACHE_LINE
    requires AllocateStep(s, size, alignment, critical, memalignOk).1.InPool?
    ensures var off := AllocateStep(s, size, alignment, critical, memalignOk).1.offset;
            off % alignment == 0 && s.poolOffset <= off < s.poolOffset + alignment
  {
    AlignUpIsLeastMultiple(s.poolOffset, alignment);
  }

  /**
   * The same call as the source computes it, every size_t sum taken modulo
   * 2^64. This is the as-written counterpart of AllocateStep.
   */
  function AllocateStepWrapping(s: MemState, size: nat, alignment: nat, critical: bool, memalignOk: bool)
    : (res: (MemState, Allocation))
    requires s.allocatedBytes < TWO64 && s.poolOffset < TWO64 && size < TWO64 && alignment < TWO64
    ensures res.1.InPool? || res.1.FreshBlock? ==> res.0.allocatedBytes == (s.allocatedBytes + size) % TWO64
  {
    if (s.allocatedBytes + size) % TWO64 > MAX_RAM then
      (s, if critical then Halted else Null)
    else
      var aligned := AlignUp(s.poolOffset, alignment);
      if s.hasPool && (aligned + size) % TWO64 <= s.poolSize then
        (s.(poolOffset := (aligned + size) % TWO64, allocatedBytes := (s.allocatedBytes + size) % TWO64), InPool(aligned))
      else if !memalignOk then
        (s, Halted)
      else
        (s.(allocatedBytes := (s.allocatedBytes + size) % TWO64), FreshBlock)
  }

  /** When no size_t sum overflows, the wrapping and the unbounded readings agree. */
  lemma WrappingAgreesWithoutOverflow(s: MemState, size: nat, alignment: nat, critical: bool, memalignOk: bool)
    requires Invariant(s) && size < TWO64 && 1 <= alignment < TWO64
    requires s.allocatedBytes + size < TWO64 && s.poolSize + alignment + size < TWO64
    ensures AllocateStepWrapping(s, size, alignment, critical, memalignOk)
         == AllocateStep(s, size, alignment, critical, memalignOk)
  {
    NoWrap(s.allocatedBytes + size);
    if s.allocatedBytes + size <= MAX_RAM {
      var aligned := AlignUp(s.poolOffset, alignment);
      assert aligned <= s.poolOffset + alignment - 1 by {
        NoWrap(s.poolOffset + alignment - 1);
      }
      NoWrap(aligned + size);
    }
  }

  lemma NoWrap(v: nat)
    requires v < TWO64
    ensures v % TWO64 == v
  {
    ModUnique(v, TWO64, 0, v);
  }

  /**
   * create_pool(size): a no-op once the pool exists. Otherwise pool_size is
   * set and the pool comes from a critical allocation with the default
   * alignment, which, with no pool yet, is a fresh block. The flag says
   * whether the process halted.
   */
  function CreatePoolStep(s: MemState, size: nat, memalignOk: bool): (res: (MemState, bool))
    requires s.poolOffset < TWO64
    ensures s.hasPool ==> res == (s, false)
    ensures res.1 <==> !s.hasPool && (s.allocatedBytes + size > MAX_RAM || !memalignOk)
    ensures !s.hasPool && !res.1 ==> res.0 == MemState(s.allocatedBytes + size, true, size, 0)
    ensures Invariant(s) && size < TWO64 && !res.1 ==> Invariant(res.0)
  {
    if s.hasPool then (s, false)
    else
      var a := AllocateStep(s.(poolSize := size), size, CACHE_LINE, true, memalignOk);
      if a.1 == Halted then (a.0, true)
      else (a.0.(hasPool := true, poolOffset := 0), false)
  }

  /**
   * As written, `allocatedBytes + size` wraps. From a fresh manager, create a
   * pool of MAX_RAM / 2 bytes and take 64 bytes from it. A critical request
   * of 2^64 - 64 bytes then passes the budget check and is granted inside
   * the pool at offset 64, though it is far larger than the pool and than
   * MAX_RAM. It charges nothing to the budget and moves pool_offset back to
   * 0, so the next 64-byte request is handed the first block again. The
   * unbounded reading halts on the huge request. The first two calls
   * overflow nothing, so both readings agree on them.
   */
  lemma WrappedBudgetCheckGrantsHugeRequest()
    ensures var s1 := CreatePoolStep(MemState(0, false, 0, 0), MAX_RAM / 2, true);
            var r2 := AllocateStepWrapping(s1.0, 64, CACHE_LINE, true, true);
            var huge := TWO64 - 64;
            var r3 := AllocateStepWrapping(r2.0, huge, CACHE_LINE, true, true);
            && s1 == (MemState(MAX_RAM / 2, true, MAX_RAM / 2, 0), false)
            && r2 == (MemState(MAX_RAM / 2 + 64, true, MAX_RAM / 2, 64), InPool(0))
            && huge > MAX_RAM
            && r3 == (MemState(MAX_RAM / 2, true, MAX_RAM / 2, 0), InPool(64))
            && AllocateStepWrapping(r3.0, 64, CACHE_LINE, true, true).1 == InPool(0)
            && AllocateStep(r2.0, huge, CACHE_LINE, true, true) == (r2.0, Halted)
  {
    assert IsPow2(64) by {
      assert IsPow2(1) && IsPow2(2) && IsPow2(4) && IsPow2(8) && IsPow2(16) && IsPow2(32);
    }
    AlignUpIsLeastMultiple(0, 64);
    assert AlignUp(0, 64) == 0;
    AlignUpIsLeastMultiple(64, 64);
    assert AlignUp(64, 64) == 64;
  }

  /** The allocator object; its fields change in place on every call. */
  class MemoryManager {
    var allocatedBytes: nat
    var hasPool: bool
    var poolSize: nat
    var poolOffset: nat

    function State(): MemState
      reads this
    {
      MemState(allocatedBytes, hasPool, poolSize, poolOffset)
    }

    ghost predicate Valid()
      reads this
    {
      Invariant(State())
    }

    constructor ()
      ensures Valid() && State() == MemState(0, false, 0, 0)
    {
      allocatedBytes, hasPool, poolSize, poolOffset := 0, false, 0, 0;
    }

    /** allocate(size, alignment, critical). */
    method Allocate(size: nat, alignment: nat, critical: bool, memalignOk: bool) returns (result: Allocation)
      requires Valid() && size < TWO64 && alignment < TWO64
      modifies this
      ensures Valid()
      ensures (State(), result) == AllocateStep(old(State()), size, alignment, critical, memalignOk)
    {
      if allocatedBytes + size > MAX_RAM {
        if critical {
          return Halted;
        }
        return Null;
      }
      var alignedOffset := AlignUp(poolOffset, alignment);
      if hasPool && alignedOffset + size <= poolSize {
        poolOffset := alignedOffset + size;
        allocatedBytes := allocatedBytes + size;
        return InPool(alignedOffset);
      }
      if !memalignOk {
        return Halted;
      }
      allocatedBytes := allocatedBytes + size;
      return FreshBlock;
    }

    /** create_pool(size): a no-op once the pool exists; otherwise a critical allocation with the default alignment. */
    method CreatePool(size: nat, memalignOk: bool) returns (halted: bool)
      requires Valid() && size < TWO64
      modifies this
      ensures Valid()
      ensures old(hasPool) ==> !halted && State() == old(State())
      ensures halted <==> !old(hasPool) && (old(allocatedBytes) + size > MAX_RAM || !memalignOk)
      ensures !old(hasPool) && !halted ==>
                State() == MemState(old(allocatedBytes) + size, true, size, 0)
      ensures (State(), halted) == CreatePoolStep(old(State()), size, memalignOk)
    {
      if hasPool {
        return false;
      }
      poolSize := size;
      var r := Allocate(size, CACHE_LINE, true, memalignOk);
      if r == Halted {
        return true;
      }
      hasPool := true;
      poolOffset := 0;
      halted := false;
    }
  }
}
