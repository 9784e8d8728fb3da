/** Capacity and load-factor arithmetic of the map.

    A `float` is a real number, and multiplying it by a power of two is exact, so
    `(int) (capacity * loadFactor)` is the floor of a product of reals. `compact` goes through a
    rounded `double` quotient; lemmas about it hold for any quotient near the exact one. */
module Sizing {
  import opened JavaInt

  const MIN_CAPACITY: int32 := 8
  const MAX_CAPACITY: int32 := 0x4000_0000

  const LEAST_LOAD_FACTOR: real := 13421773.0 / 134217728.0
  const GREATEST_LOAD_FACTOR: real := 15099494.0 / 16777216.0

  const DEFAULT_LOAD_FACTOR: real := 9227469.0 / 16777216.0

  /** `f` is a float with the given unit in its last place, and none is nearer to `decimal`. */
  predicate Nearest(f: real, decimal: real, unit: real)
    requires unit > 0.0
  {
    (f / unit).Floor as real == f / unit && -0.5 < (f - decimal) / unit < 0.5
  }

  /** The bounds and the default are the floats nearest to 0.1, 0.9 and 0.55. */
  lemma LoadFactorsAreNearest()
    ensures Nearest(LEAST_LOAD_FACTOR, 0.1, 1.0 / 134217728.0)
    ensures Nearest(GREATEST_LOAD_FACTOR, 0.9, 1.0 / 16777216.0)
    ensures Nearest(DEFAULT_LOAD_FACTOR, 0.55, 1.0 / 16777216.0)
    ensures ValidLoadFactor(DEFAULT_LOAD_FACTOR)
  {
  }

  predicate ValidLoadFactor(loadFactor: real) {
    LEAST_LOAD_FACTOR <= loadFactor <= GREATEST_LOAD_FACTOR
  }

  function Max(x: int, y: int): (m: int)
    ensures x <= m && y <= m && (m == x || m == y)
  {
    if x < y then y else x
  }

  // ---- powers of two ---------------------------------------------------------------------

  /** Number of binary digits. */
  function BitLength(x: nat): nat {
    if x == 0 then 0 else 1 + BitLength(x / 2)
  }

  function NumberOfLeadingZeros(x: int32): int {
    32 - BitLength(Unsigned32(x))
  }

  /** `1 << s`: Java uses the low five bits of the distance. */
  function ShiftOne(s: int): int32 {
    Wrap32(Pow2(s % 32))
  }

  function FindNextPositivePowerOfTwo(value: int32): int32 {
    ShiftOne(32 - NumberOfLeadingZeros(Wrap32(value - 1)))
  }

  lemma {:induction false} BitLengthBound(x: nat, k: nat)
    ensures BitLength(x) <= k <==> x < Pow2(k)
    decreases k
  {
    if k != 0 {
      BitLengthBound(x / 2, k - 1);
    }
  }

  lemma NextIsShiftedBit(value: int32)
    requires value >= MIN_CAPACITY
    ensures 0 < BitLength(value - 1) <= 31
    ensures FindNextPositivePowerOfTwo(value) == Wrap32(Pow2(BitLength(value - 1)))
  {
    var k := BitLength(value - 1);
    assert k <= 31 by {
      Pow2Values();
      BitLengthBound(value - 1, 31);
    }
    assert Unsigned32(Wrap32(value - 1)) == value - 1;
    assert 32 - NumberOfLeadingZeros(Wrap32(value - 1)) == k;
    assert k % 32 == k;
  }

  ghost predicate IsLeastPow2(p: int, value: int) {
    && IsPow2(p)
    && value <= p
    && (forall k: nat :: Pow2(k) >= value ==> p <= Pow2(k))
  }

  lemma BitLengthGivesLeast(value: nat)
    requires value > 0
    ensures IsLeastPow2(Pow2(BitLength(value - 1)), value)
  {
    var k := BitLength(value - 1);
    BitLengthBound(value - 1, k);
    forall j: nat | Pow2(j) >= value
      ensures Pow2(k) <= Pow2(j)
    {
      BitLengthBound(value - 1, j);
      Pow2Monotone(k, j);
    }
  }

  /** The least power of two at or above the argument, up to the largest an int can hold; beyond
      that the shift yields a negative number. */
  lemma NextPowerOfTwoIsLeast(value: int32)
    requires value >= MIN_CAPACITY
    ensures value <= MAX_CAPACITY ==> IsLeastPow2(FindNextPositivePowerOfTwo(value), value)
    ensures value <= MAX_CAPACITY ==> FindNextPositivePowerOfTwo(value) <= MAX_CAPACITY
    ensures value > MAX_CAPACITY ==> FindNextPositivePowerOfTwo(value) == -0x8000_0000
  {
    hide FindNextPositivePowerOfTwo, IsLeastPow2, BitLength, Pow2;
    var k := BitLength(value - 1);
    NextIsShiftedBit(value);
    BitLengthGivesLeast(value);
    Pow2Values();
    BitLengthBound(value - 1, 30);
    if value <= MAX_CAPACITY {
      Pow2Monotone(k, 30);
    } else {
      assert k == 31;
    }
  }

  // ---- products and quotients ------------------------------------------------------------

  function Times(x: real, y: real): real {
    x * y
  }

  function Over(x: real, y: real): real
    requires y > 0.0
  {
    x / y
  }

  lemma TimesAdds(x: real, y: real, factor: real)
    ensures Times(x + y, factor) == Times(x, factor) + Times(y, factor)
  {
  }

  /** The load factor takes between a tenth and nine tenths. */
  lemma LoadBounds(x: real, loadFactor: real)
    requires x >= 0.0 && ValidLoadFactor(loadFactor)
    ensures 0.1 * x <= Times(x, loadFactor) <= 0.9 * x
  {
    assert x * (loadFactor - 0.1) == x * loadFactor - x * 0.1;
    assert x * (0.9 - loadFactor) == x * 0.9 - x * loadFactor;
  }

  lemma TimesSign(x: real, factor: real)
    requires factor > 0.0
    ensures Times(x, factor) >= 0.0 <==> x >= 0.0
  {
  }

  lemma TimesMonotone(x: real, y: real, factor: real)
    requires factor > 0.0
    ensures Times(x, factor) <= Times(y, factor) <==> x <= y
  {
    TimesSign(y - x, factor);
    TimesAdds(y - x, x, factor);
  }

  lemma OverTimes(x: real, factor: real)
    requires factor > 0.0
    ensures Times(Over(x, factor), factor) == x
  {
  }

  lemma OverSign(x: real, factor: real)
    requires factor > 0.0
    ensures Over(x, factor) >= 0.0 <==> x >= 0.0
  {
    hide Times, Over;
    OverTimes(x, factor);
    TimesSign(Over(x, factor), factor);
  }

  lemma OverAdds(x: real, y: real, factor: real)
    requires factor > 0.0
    ensures Over(x + y, factor) == Over(x, factor) + Over(y, factor)
  {
  }

  lemma FloorBetween(x: real, lo: int, hi: int)
    requires lo as real <= x <= hi as real
    ensures lo <= x.Floor <= hi
    ensures x < hi as real ==> x.Floor < hi
  {
  }

  // ---- resize threshold ------------------------------------------------------------------

  /** `(int) (capacity * loadFactor)`: the cast drops the fraction, towards zero. */
  function Threshold(capacity: int, loadFactor: real): int {
    if capacity >= 0 then Times(capacity as real, loadFactor).Floor
    else -Times((-capacity) as real, loadFactor).Floor
  }

  /** The threshold is the whole number of the product, for a negative capacity towards zero. */
  lemma ThresholdIs(capacity: int, loadFactor: real, t: int)
    requires capacity >= 0
    ensures t == Threshold(capacity, loadFactor)
       <==> t as real <= capacity as real * loadFactor < t as real + 1.0
    ensures Threshold(-capacity, loadFactor) == -Threshold(capacity, loadFactor)
  {
    assert Times(0.0, loadFactor) == 0.0;
    assert Times(capacity as real, loadFactor) == capacity as real * loadFactor;
    hide Times;
  }

  /** The threshold computed for the negative capacity that a failed compaction asks for. */
  lemma NegativeThreshold(loadFactor: real)
    requires ValidLoadFactor(loadFactor)
    ensures Threshold(-0x8000_0000, loadFactor) < 0
  {
    hide Times;
    LoadBounds(0x8000_0000 as real, loadFactor);
  }

  /** A table within its threshold has a free slot. */
  lemma ThresholdBelowCapacity(capacity: int, loadFactor: real)
    requires capacity > 0 && ValidLoadFactor(loadFactor)
    ensures 0 <= Threshold(capacity, loadFactor) < capacity
    ensures capacity >= 32 ==> Threshold(capacity, loadFactor) + 2 < capacity
  {
    hide Times;
    var x := Times(capacity as real, loadFactor);
    LoadBounds(capacity as real, loadFactor);
    FloorBetween(x, 0, capacity);
    if capacity >= 32 {
      FloorBetween(x, 0, capacity - 2);
    }
  }

  lemma FloorOfDouble(x: real)
    requires x >= 0.5
    ensures (x + x).Floor >= x.Floor + 1
    ensures (x + x).Floor >= 2 * x.Floor
  {
  }

  /** One doubling always makes room for one more entry. */
  lemma DoublingRaisesThreshold(capacity: int, loadFactor: real)
    requires capacity >= MIN_CAPACITY && ValidLoadFactor(loadFactor)
    ensures Threshold(2 * capacity, loadFactor) >= Threshold(capacity, loadFactor) + 1
    ensures capacity >= 20 ==> Threshold(2 * capacity, loadFactor) >= Threshold(capacity, loadFactor) + 2
  {
    hide Times;
    var c := capacity as real;
    var x := Times(c, loadFactor);
    LoadBounds(c, loadFactor);
    assert (2 * capacity) as real == c + c;
    TimesAdds(c, c, loadFactor);
    FloorOfDouble(x);
  }

  // ---- compaction ------------------------------------------------------------------------

  /** `Math.round`: to the nearest integer, halves up. */
  function Round(x: real): int {
    (x + 0.5).Floor
  }

  /** Rounding is to the nearest integer, halves up, and that fixes the result. */
  lemma RoundIs(x: real, i: int)
    ensures i == Round(x) <==> i as real - 0.5 <= x < i as real + 0.5
  {
  }

  function ExactQuotient(size: int, loadFactor: real): real
    requires ValidLoadFactor(loadFactor)
  {
    Over(size as real, loadFactor)
  }

  /** A quotient `size * (1.0 / loadFactor)` with at most this much floating-point error. */
  ghost predicate NearQuotient(quotient: real, size: int, loadFactor: real)
    requires ValidLoadFactor(loadFactor)
  {
    -0.001 <= quotient - ExactQuotient(size, loadFactor) <= 0.001
  }

  lemma QuotientAtMost(size: int, capacity: nat, loadFactor: real)
    requires ValidLoadFactor(loadFactor)
    ensures ExactQuotient(size, loadFactor) <= capacity as real
       <==> size as real <= Times(capacity as real, loadFactor)
    ensures ExactQuotient(size, loadFactor) <= capacity as real <==> size <= Threshold(capacity, loadFactor)
  {
    hide Times, Over;
    OverTimes(size as real, loadFactor);
    TimesMonotone(ExactQuotient(size, loadFactor), capacity as real, loadFactor);
  }

  lemma QuotientNonNegative(size: nat, loadFactor: real)
    requires ValidLoadFactor(loadFactor)
    ensures ExactQuotient(size, loadFactor) >= 0.0
    ensures Round(ExactQuotient(size, loadFactor)) >= 0
  {
    hide Over;
    OverSign(size as real, loadFactor);
  }

  /** Compaction leaves a free slot and misses the threshold by at most one. */
  lemma CompactedFits(size: nat, loadFactor: real, quotient: real, capacity: int)
    requires ValidLoadFactor(loadFactor) && NearQuotient(quotient, size, loadFactor)
    requires capacity >= MIN_CAPACITY && capacity >= Round(quotient)
    ensures size < capacity
    ensures size <= Threshold(capacity, loadFactor) + 1
  {
    hide Times, Over;
    var exact, c := ExactQuotient(size, loadFactor), capacity as real;
    OverTimes(size as real, loadFactor);
    QuotientNonNegative(size, loadFactor);
    LoadBounds(exact, loadFactor);
    var slack := c - exact + 0.501;
    assert slack >= 0.0;
    LoadBounds(slack, loadFactor);
    LoadBounds(0.501, loadFactor);
    TimesAdds(c - exact, 0.501, loadFactor);
    TimesAdds(c - exact, exact, loadFactor);
    assert Times(c, loadFactor) >= (size - 1) as real;
  }

  /** Compaction never enlarges a table that was within its threshold. */
  lemma CompactNeverEnlarges(size: nat, capacity: int32, loadFactor: real, quotient: real)
    requires ValidLoadFactor(loadFactor) && NearQuotient(quotient, size, loadFactor)
    requires IsPow2(capacity) && MIN_CAPACITY <= capacity <= MAX_CAPACITY
    requires size <= Threshold(capacity, loadFactor)
    ensures 0 <= Round(quotient) <= capacity
    ensures FindNextPositivePowerOfTwo(Max(MIN_CAPACITY, Round(quotient))) <= capacity
  {
    hide Times, Over, FindNextPositivePowerOfTwo;
    QuotientAtMost(size, capacity, loadFactor);
    QuotientNonNegative(size, loadFactor);
    NextPowerOfTwoIsLeast(Max(MIN_CAPACITY, Round(quotient)));
  }

  /** Capacity that compaction asks for; the ideal one is narrowed to an int. */
  function CompactCapacity(size: int, loadFactor: real): int32
    requires ValidLoadFactor(loadFactor)
  {
    FindNextPositivePowerOfTwo(Max(MIN_CAPACITY, Wrap32(Round(ExactQuotient(size, loadFactor)))))
  }

  /** A table small enough to be compacted: the capacity asked for is one an array can have. */
  predicate CanCompact(size: nat, loadFactor: real)
    requires ValidLoadFactor(loadFactor)
  {
    Round(ExactQuotient(size, loadFactor)) <= MAX_CAPACITY
  }

  /** Compaction asks for a power of two from 8 to 2^30, or for the least int; if the size allows
      it, for the least power of two that is large enough. */
  lemma CompactCapacityCases(size: nat, loadFactor: real)
    requires ValidLoadFactor(loadFactor)
    ensures var capacity := CompactCapacity(size, loadFactor);
            if capacity < 0 then capacity == -0x8000_0000
            else MIN_CAPACITY <= capacity <= MAX_CAPACITY && IsPow2(capacity)
    ensures CanCompact(size, loadFactor) ==>
              && IsLeastPow2(CompactCapacity(size, loadFactor),
                             Max(MIN_CAPACITY, Round(ExactQuotient(size, loadFactor))))
              && size < CompactCapacity(size, loadFactor)
              && size <= Threshold(CompactCapacity(size, loadFactor), loadFactor) + 1
  {
    hide Times, Over, FindNextPositivePowerOfTwo, Threshold;
    var quotient := ExactQuotient(size, loadFactor);
    QuotientNonNegative(size, loadFactor);
    NextPowerOfTwoIsLeast(Max(MIN_CAPACITY, Wrap32(Round(quotient))));
    if CanCompact(size, loadFactor) {
      assert Wrap32(Round(quotient)) == Round(quotient);
      CompactedFits(size, loadFactor, quotient, CompactCapacity(size, loadFactor));
    }
  }

  /** The whole number nearest to size / loadFactor, halves up. */
  ghost predicate IsIdeal(ideal: int, size: int, loadFactor: real) {
    (ideal as real - 0.5) * loadFactor <= size as real < (ideal as real + 0.5) * loadFactor
  }

  lemma IdealIsRound(ideal: int, size: nat, loadFactor: real)
    requires ValidLoadFactor(loadFactor)
    ensures IsIdeal(ideal, size, loadFactor) <==> ideal == Round(ExactQuotient(size, loadFactor))
  {
    var quotient := ExactQuotient(size, loadFactor);
    var low, high := ideal as real - 0.5, ideal as real + 0.5;
    OverTimes(size as real, loadFactor);
    assert IsIdeal(ideal, size, loadFactor)
      <==> Times(low, loadFactor) <= Times(quotient, loadFactor) < Times(high, loadFactor);
    hide Times, Over, IsIdeal;
    TimesMonotone(low, quotient, loadFactor);
    TimesMonotone(high, quotient, loadFactor);
    RoundIs(quotient, ideal);
  }

  /** What compaction asks for, from the size and the load factor alone: the least power of two
      that is at least 8 and at least the ideal capacity, narrowed to an int; if that is beyond
      2^30, the least int. */
  lemma CompactCapacityIs(size: nat, loadFactor: real, ideal: int, narrowed: int32)
    requires ValidLoadFactor(loadFactor) && IsIdeal(ideal, size, loadFactor)
    requires (ideal - narrowed) % 0x1_0000_0000 == 0
    ensures if narrowed > 0x4000_0000 then CompactCapacity(size, loadFactor) == -0x8000_0000
            else IsLeastPow2(CompactCapacity(size, loadFactor), Max(8, narrowed))
    ensures CanCompact(size, loadFactor) <==> ideal <= 0x4000_0000
  {
    IdealIsRound(ideal, size, loadFactor);
    WrapIsCongruent(ideal, narrowed, 0);
    NextPowerOfTwoIsLeast(Max(MIN_CAPACITY, narrowed));
    hide Pow2, FindNextPositivePowerOfTwo, Wrap32, Round, ExactQuotient, IsLeastPow2, IsIdeal;
  }

  lemma CompactIsIdeal(size: nat, loadFactor: real)
    requires ValidLoadFactor(loadFactor) && CanCompact(size, loadFactor)
    ensures forall ideal: int :: IsIdeal(ideal, size, loadFactor)
              ==> IsLeastPow2(CompactCapacity(size, loadFactor), Max(8, ideal))
  {
    CompactCapacityCases(size, loadFactor);
    hide CompactCapacity, IsLeastPow2, IsIdeal, Round, ExactQuotient;
    forall ideal: int | IsIdeal(ideal, size, loadFactor)
      ensures IsLeastPow2(CompactCapacity(size, loadFactor), Max(8, ideal))
    {
      IdealIsRound(ideal, size, loadFactor);
    }
  }

  /** Even just above its threshold, a table below the largest capacity can be compacted; one
      within its threshold always can. */
  lemma CompactStaysInRange(size: nat, capacity: int32, loadFactor: real)
    requires ValidLoadFactor(loadFactor)
    requires IsPow2(capacity) && MIN_CAPACITY <= capacity <= MAX_CAPACITY
    requires size <= Threshold(capacity, loadFactor) + (if capacity < MAX_CAPACITY then 1 else 0)
    ensures CanCompact(size, loadFactor)
  {
    hide Times, Over;
    if size <= Threshold(capacity, loadFactor) {
      QuotientAtMost(size, capacity, loadFactor);
    } else {
      CapacityStep(capacity);
      LoadBounds(10.0, loadFactor);
      TimesAdds(capacity as real, 10.0, loadFactor);
      assert (capacity + 10) as real == capacity as real + 10.0;
      QuotientAtMost(size, capacity + 10, loadFactor);
    }
  }

  /** Compaction of a table within its threshold asks for no more than its capacity. */
  lemma CompactCapacityShrinks(size: nat, capacity: int32, loadFactor: real)
    requires ValidLoadFactor(loadFactor)
    requires IsPow2(capacity) && MIN_CAPACITY <= capacity <= MAX_CAPACITY
    requires size <= Threshold(capacity, loadFactor)
    ensures CanCompact(size, loadFactor) && CompactCapacity(size, loadFactor) <= capacity
  {
    hide Times, Over, FindNextPositivePowerOfTwo, Threshold;
    CompactNeverEnlarges(size, capacity, loadFactor, ExactQuotient(size, loadFactor));
  }

  lemma FewerCanCompact(fewer: nat, size: nat, loadFactor: real)
    requires ValidLoadFactor(loadFactor) && fewer <= size && CanCompact(size, loadFactor)
    ensures CanCompact(fewer, loadFactor)
  {
    hide Over;
    QuotientNonNegative(size - fewer, loadFactor);
    OverAdds(fewer as real, (size - fewer) as real, loadFactor);
    assert size as real == fewer as real + (size - fewer) as real;
  }

  lemma CapacityStep(capacity: int)
    requires IsPow2(capacity) && capacity < MAX_CAPACITY
    ensures 2 * capacity <= MAX_CAPACITY
    ensures IsPow2(2 * capacity)
  {
    var k: nat :| capacity == Pow2(k);
    assert Pow2(30) == 0x4000_0000 by {
      Pow2Values();
    }
    if k >= 30 {
      Pow2Monotone(30, k);
      assert false;
    }
    Pow2Monotone(k + 1, 30);
    assert 2 * capacity == Pow2(k + 1);
  }

  /** When a compacted table ends up over its threshold: exactly when rounding, that of the
      quotient included, brought the ideal capacity down onto a power of two. */
  lemma CompactOverThresholdIff(size: nat, loadFactor: real, quotient: real, ideal: int)
    requires ValidLoadFactor(loadFactor) && NearQuotient(quotient, size, loadFactor)
    requires ideal == Round(quotient) && 0 <= ideal <= MAX_CAPACITY
    ensures size > Threshold(FindNextPositivePowerOfTwo(Max(MIN_CAPACITY, ideal)), loadFactor)
       <==> ideal >= MIN_CAPACITY && IsPow2(ideal) && ideal as real < ExactQuotient(size, loadFactor)
  {
    hide Times, Over, FindNextPositivePowerOfTwo;
    var capacity := FindNextPositivePowerOfTwo(Max(MIN_CAPACITY, ideal));
    NextPowerOfTwoIsLeast(Max(MIN_CAPACITY, ideal));
    QuotientAtMost(size, capacity, loadFactor);
    if ideal >= MIN_CAPACITY && IsPow2(ideal) {
      var k: nat :| ideal == Pow2(k);
      assert capacity == ideal;
    }
  }

  /** Such inputs exist with the default load factor: nine entries compact into sixteen slots
      whose threshold is eight. */
  lemma NineEntriesExceed()
    ensures ValidLoadFactor(DEFAULT_LOAD_FACTOR) && CompactCapacity(9, DEFAULT_LOAD_FACTOR) == 16
    ensures Round(ExactQuotient(9, DEFAULT_LOAD_FACTOR)) == 16
    ensures Threshold(16, DEFAULT_LOAD_FACTOR) == 8
  {
    hide Round, ExactQuotient, Threshold, FindNextPositivePowerOfTwo;
    IdealIsRound(16, 9, DEFAULT_LOAD_FACTOR);
    ThresholdIs(16, DEFAULT_LOAD_FACTOR, 8);
    NextPowerOfTwoIsLeast(16);
    assert Pow2(4) == 16;
  }
}
